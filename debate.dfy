/**
 * The debate concept as an object: its three tables are fields that its methods
 * update, and `nextId` stands for the document store's supply of fresh
 * identifiers. Each method is specified by the functions of module DebateRules
 * applied to the state before the call.
 */
module Debate {
  import opened Base
  import opened DebateRules

  /**
   * The nested loop of `matchParticipantToDifferentOpinions`: every opinion of the
   * debate against every opinion of it, in list order; when the two scales differ, the
   * second opinion's id is appended to the first author's list unless it is there, and
   * the list is created when the author has none.
   */
  method MatchLoop(m0: Matches, ops: seq<OpinionDoc>, ids: seq<ObjectId>, d: ObjectId) returns (m: Matches)
    requires forall x | x in ids :: FindOpinion(ops, x).Some?
    ensures m == MatchAll(m0, ops, ids, ids, d)
  {
    m := m0;
    for i := 0 to |ids|
      invariant m == MatchAll(m0, ops, ids[..i], ids, d)
    {
      ghost var before := m;
      for j := 0 to |ids|
        invariant m == MatchRow(before, ops, ids[i], ids[..j], d)
      {
        MatchRowStep(before, ops, ids[i], ids, j, d);
        ghost var prev := m;
        var opinion := FindOpinion(ops, ids[i]);
        var otherOpinion := FindOpinion(ops, ids[j]);
        if opinion.None? || otherOpinion.None? {
          assert false;
        } else if opinion.value.likertScale != otherOpinion.value.likertScale {
          var k := MatchKey(opinion.value.author, d);
          if k in m {
            if ids[j] !in m[k] {
              m := m[k := m[k] + [ids[j]]];
            }
          } else {
            m := m[k := [ids[j]]];
          }
          assert m == AddMatch(prev, k, ids[j]);
        }
      }
      assert ids[..|ids|] == ids;
      MatchAllStep(m0, ops, ids, i, d);
    }
    assert ids[..|ids|] == ids;
  }

  /** The loop of `delete` over a debate's opinion ids: `deleteOne` for each. */
  method DeleteLoop(ops: seq<OpinionDoc>, ids: seq<ObjectId>) returns (r: seq<OpinionDoc>)
    requires NoDup(OpinionIds(ops))
    ensures r == WithoutIds(ops, ids)
  {
    r := ops;
    WithoutIdsNone(ops, []);
    assert ids[..0] == [];
    for i := 0 to |ids|
      invariant r == WithoutIds(ops, ids[..i])
    {
      WithoutIdsSub(ops, ids[..i]);
      NoDupSub(OpinionIds(r), OpinionIds(ops));
      DeleteOpinionIsWithout(r, ids[i]);
      WithoutIdsThen(ops, ids[..i], ids[i]);
      assert ids[..i] + [ids[i]] == ids[..i + 1];
      r := DeleteOpinion(r, ids[i]);
    }
    assert ids[..|ids|] == ids;
  }

  class DebateConcept {
    var debates: map<ObjectId, DebateDoc>
    var opinions: seq<OpinionDoc>
    var matches: Matches
    var nextId: ObjectId

    /** The three tables as one value. */
    function Tables(): Tables
      reads this
    {
      DebateRules.Tables(debates, opinions, matches)
    }

    ghost predicate Valid()
      reads this
    {
      Inv(Tables(), nextId)
    }

    constructor ()
      ensures Valid()
      ensures Tables() == DebateRules.Tables(map[], [], map[])
    {
      debates, opinions, matches, nextId := map[], [], map[], 0;
    }

    /** `getDebate(_id)`: the debate, or `NotFoundError`. */
    function GetDebate(id: ObjectId): (r: Result<DebateDoc>)
      reads this
      ensures r.Err? <==> id !in debates
      ensures r.Err? ==> r.error == NotFound
      ensures r.Ok? ==> r.value == debates[id]
    {
      if id in debates then Ok(debates[id]) else Err(NotFound)
    }

    /** `getDebateById(_id)`: the public name of `getDebate`. */
    function GetDebateById(id: ObjectId): Result<DebateDoc>
      reads this
    {
      GetDebate(id)
    }

    /** `isParticipant(_id, user)`: whether the user is in the debate's participants. */
    function IsParticipant(id: ObjectId, user: User): (r: Result<bool>)
      reads this
      ensures r.Err? <==> id !in debates
      ensures r.Err? ==> r.error == NotFound
      ensures r.Ok? ==> (r.value <==> user in debates[id].participants)
    {
      var d := GetDebate(id);
      if d.Err? then Err(d.error) else Ok(user in d.value.participants)
    }

    /** `getParticipants(_id)`: the debate's participants, in the order they joined. */
    function GetParticipants(id: ObjectId): (r: Result<seq<User>>)
      reads this
      ensures r.Err? <==> id !in debates
      ensures r.Err? ==> r.error == NotFound
      ensures r.Ok? ==> r.value == debates[id].participants
    {
      var d := GetDebate(id);
      if d.Err? then Err(d.error) else Ok(d.value.participants)
    }

    /** `promptAlreadyUsed(prompt)`: refused when some debate has the prompt. */
    function PromptAlreadyUsed(prompt: string): (r: Result<()>)
      reads this
      ensures r.Err? <==> exists id | id in debates :: debates[id].prompt == prompt
      ensures r.Err? ==> r.error == UsedPrompt(prompt)
    {
      if PromptUsed(debates, prompt) then Err(UsedPrompt(prompt)) else Ok(())
    }

    /** `suggestPrompt(prompt, category)`: a new debate with empty lists, under a fresh id. */
    method SuggestPrompt(prompt: string, category: string) returns (r: Result<ObjectId>)
      requires Valid()
      modifies this
      ensures Valid()
      ensures old(PromptUsed(debates, prompt)) ==> r == Err(UsedPrompt(prompt)) && unchanged(this)
      ensures !old(PromptUsed(debates, prompt)) ==>
        && r == Ok(old(nextId)) && old(nextId) !in old(debates)
        && Tables() == Suggested(old(Tables()), old(nextId), prompt, category)
        && nextId == old(nextId) + 1
    {
      var check := PromptAlreadyUsed(prompt);
      if check.Err? {
        return Err(check.error);
      }
      SuggestedInv(Tables(), nextId, prompt, category);
      var id := nextId;
      nextId := nextId + 1;
      debates := debates[id := DebateDoc(prompt, category, [], [])];
      r := Ok(id);
    }

    /**
     * `addOpinion(_id, user, content, likertScale)`: a first-time participant joins the
     * debate with a new opinion; a returning one only rewrites the content of the first
     * opinion they wrote.
     */
    method AddOpinion(id: ObjectId, user: User, content: string, likertScale: string) returns (r: Result<()>)
      requires Valid()
      modifies this
      ensures Valid()
      ensures id !in old(debates) ==> r == Err(NotFound) && unchanged(this)
      ensures id in old(debates) && user !in old(debates)[id].participants ==>
        && r == Ok(())
        && Tables() == FirstSubmission(old(Tables()), old(nextId), id, user, content, likertScale)
        && nextId == old(nextId) + 1
      ensures id in old(debates) && user in old(debates)[id].participants ==>
        r == Ok(()) && Tables() == RepeatSubmission(old(Tables()), user, content) && nextId == old(nextId)
    {
      var existingDebate := GetDebate(id);
      if existingDebate.Err? {
        return Err(existingDebate.error);
      }
      var d := existingDebate.value;
      var participant := IsParticipant(id, user);
      if !participant.value {
        FirstSubmissionInv(Tables(), nextId, id, user, content, likertScale);
        var allParticipants := d.participants + [user];
        var newOpinion := nextId;
        nextId := nextId + 1;
        opinions := opinions + [OpinionDoc(newOpinion, content, user, likertScale)];
        var allOpinions := d.opinions + [newOpinion];
        debates := debates[id := d.(participants := allParticipants, opinions := allOpinions)];
      } else {
        RepeatSubmissionInv(Tables(), nextId, user, content);
        opinions := UpdateContentByAuthor(opinions, user, content);
      }
      r := Ok(());
    }

    /**
     * `matchParticipantToDifferentOpinions(_id)`: the matching pass over the debate's
     * opinions, then the debate's match records.
     */
    method MatchParticipantToDifferentOpinions(id: ObjectId) returns (r: Result<Matches>)
      requires Valid()
      modifies this`matches
      ensures Valid()
      ensures id !in old(debates) ==> r == Err(NotFound) && matches == old(matches)
      ensures id in old(debates) ==> Tables() == Matched(old(Tables()), id) && r == Ok(ForDebate(matches, id))
    {
      var existingDebate := GetDebate(id);
      if existingDebate.Err? {
        return Err(existingDebate.error);
      }
      var ids := existingDebate.value.opinions;
      forall x | x in ids ensures FindOpinion(opinions, x).Some? {
        ListedExist(Tables(), nextId, id, x);
      }
      MatchedInv(Tables(), nextId, id);
      matches := MatchLoop(matches, opinions, ids, id);
      r := Ok(ForDebate(matches, id));
    }

    /**
     * `removeDifferentOpinion(debate, reviewer, opinionId)`: the first occurrence of the
     * id leaves the reviewer's list for the debate; a missing record or id is refused.
     */
    method RemoveDifferentOpinion(debate: ObjectId, reviewer: User, opinionId: ObjectId) returns (r: Result<()>)
      requires Valid()
      modifies this`matches
      ensures Valid()
      ensures var k := MatchKey(reviewer, debate);
        k !in old(matches) || opinionId !in old(matches)[k] ==> r == Err(NotFound) && matches == old(matches)
      ensures var k := MatchKey(reviewer, debate);
        k in old(matches) && opinionId in old(matches)[k] ==>
          && r == Ok(())
          && matches == old(matches)[k := RemoveAt(old(matches)[k], IndexOf(old(matches)[k], opinionId))]
          && opinionId !in matches[k]
    {
      var k := MatchKey(reviewer, debate);
      if k !in matches {
        return Err(NotFound);
      }
      var allMatchedOpinions := matches[k];
      var opinionIndex := IndexOf(allMatchedOpinions, opinionId);
      if opinionIndex == -1 {
        return Err(NotFound);
      }
      RemovedInv(Tables(), nextId, k, opinionIndex);
      matches := matches[k := RemoveAt(allMatchedOpinions, opinionIndex)];
      r := Ok(());
    }

    /** `delete(_id)`: the debate goes, with its opinions and its match records. */
    method Delete(id: ObjectId) returns (r: Result<()>)
      requires Valid()
      modifies this`debates, this`opinions, this`matches
      ensures Valid()
      ensures id !in old(debates) ==> r == Err(NotFound) && Tables() == old(Tables())
      ensures id in old(debates) ==> r == Ok(()) && Tables() == Deleted(old(Tables()), id)
    {
      var existingDebate := GetDebate(id);
      if existingDebate.Err? {
        return Err(existingDebate.error);
      }
      DeletedInv(Tables(), nextId, id);
      opinions := DeleteLoop(opinions, existingDebate.value.opinions);
      debates := debates - {id};
      matches := map k | k in matches && k.debate != id :: matches[k];
      r := Ok(());
    }
  }
}
