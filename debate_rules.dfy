/**
 * The debate concept's rules as functions over its three tables: the opinion
 * lookups and updates, the match relation built by the matching pass, and the
 * cascade of a debate's deletion. A user is a string, as in the concept; every
 * opinion id held in a list is the opinion's ObjectId.
 */
module DebateRules {
  import opened Base

  type User = string

  /** A debate: its prompt and category, and the parallel lists of participants and their opinions. */
  datatype DebateDoc = DebateDoc(prompt: string, category: string, participants: seq<User>, opinions: seq<ObjectId>)

  /** A submitted opinion. */
  datatype OpinionDoc = OpinionDoc(id: ObjectId, content: string, author: User, likertScale: string)

  /** A match record is identified by its reviewer and its debate. */
  datatype MatchKey = MatchKey(reviewer: User, debate: ObjectId)

  /** The match records: each (reviewer, debate) pair has at most one list of opinion ids. */
  type Matches = map<MatchKey, seq<ObjectId>>

  // ---------------------------------------------------------------------------
  // The opinion table
  // ---------------------------------------------------------------------------

  function OpinionIds(s: seq<OpinionDoc>): seq<ObjectId> {
    seq(|s|, i requires 0 <= i < |s| => s[i].id)
  }

  function Authors(s: seq<OpinionDoc>): seq<User> {
    seq(|s|, i requires 0 <= i < |s| => s[i].author)
  }

  /** The opinion with this id (`opinions.readOne({ _id })`), if any. */
  function FindOpinion(s: seq<OpinionDoc>, id: ObjectId): (r: Option<OpinionDoc>)
    ensures r.Some? <==> id in OpinionIds(s)
    ensures r.Some? ==> r.value.id == id && r.value in s
  {
    var i := IndexOf(OpinionIds(s), id);
    if i < 0 then None else Some(s[i])
  }

  /** The opinion `id` exists and is written by `user`. */
  ghost predicate AuthoredBy(s: seq<OpinionDoc>, id: ObjectId, user: User) {
    FindOpinion(s, id).Some? && FindOpinion(s, id).value.author == user
  }

  /**
   * `opinions.updateOne({ author: user }, { content })`: the first opinion by `user`, in
   * whichever debate it is, gets the new content; nothing else changes.
   */
  function UpdateContentByAuthor(s: seq<OpinionDoc>, user: User, content: string): seq<OpinionDoc> {
    var i := IndexOf(Authors(s), user);
    if i < 0 then s else s[i := s[i].(content := content)]
  }

  /** `opinions.deleteOne({ _id })`: the first opinion with this id is removed. */
  function DeleteOpinion(s: seq<OpinionDoc>, id: ObjectId): seq<OpinionDoc> {
    var i := IndexOf(OpinionIds(s), id);
    if i < 0 then s else RemoveAt(s, i)
  }

  /** The opinions whose ids are not in `ids`, in their order. */
  function WithoutIds(s: seq<OpinionDoc>, ids: seq<ObjectId>): seq<OpinionDoc> {
    if s == [] then []
    else (if s[0].id in ids then [] else [s[0]]) + WithoutIds(s[1..], ids)
  }

  // ---------------------------------------------------------------------------
  // The matching pass
  // ---------------------------------------------------------------------------

  /** A record's list, or the empty list when there is no record. */
  function MatchList(m: Matches, k: MatchKey): seq<ObjectId> {
    if k in m then m[k] else []
  }

  /**
   * One write of the matching pass: `x` is appended to the list of `k` unless it is
   * there already; a missing record is created holding just `x`.
   */
  function AddMatch(m: Matches, k: MatchKey, x: ObjectId): Matches {
    if k in m then
      if x in m[k] then m else m[k := m[k] + [x]]
    else m[k := [x]]
  }

  /**
   * The pass's body for the ordered pair (a, b) of opinion ids of debate `d`: when the
   * two opinions' scales differ, `b` goes to the match list of `a`'s author.
   */
  function MatchPair(m: Matches, ops: seq<OpinionDoc>, a: ObjectId, b: ObjectId, d: ObjectId): Matches {
    match (FindOpinion(ops, a), FindOpinion(ops, b))
    case (Some(o), Some(p)) =>
      if o.likertScale != p.likertScale then AddMatch(m, MatchKey(o.author, d), b) else m
    case _ => m
  }

  /** The inner loop: `a` against every id of `bs`, in order. */
  function MatchRow(m: Matches, ops: seq<OpinionDoc>, a: ObjectId, bs: seq<ObjectId>, d: ObjectId): Matches {
    if bs == [] then m
    else MatchPair(MatchRow(m, ops, a, bs[..|bs| - 1], d), ops, a, bs[|bs| - 1], d)
  }

  /** The outer loop: every id of `rows` against every id of `bs`, row by row. */
  function MatchAll(m: Matches, ops: seq<OpinionDoc>, rows: seq<ObjectId>, bs: seq<ObjectId>, d: ObjectId): Matches {
    if rows == [] then m
    else MatchRow(MatchAll(m, ops, rows[..|rows| - 1], bs, d), ops, rows[|rows| - 1], bs, d)
  }

  /** One more column of the inner loop. */
  lemma MatchRowStep(m: Matches, ops: seq<OpinionDoc>, a: ObjectId, bs: seq<ObjectId>, j: nat, d: ObjectId)
    requires j < |bs|
    ensures MatchRow(m, ops, a, bs[..j + 1], d) == MatchPair(MatchRow(m, ops, a, bs[..j], d), ops, a, bs[j], d)
  {
    assert bs[..j + 1][..j] == bs[..j];
  }

  /** One more row of the outer loop. */
  lemma MatchAllStep(m: Matches, ops: seq<OpinionDoc>, rows: seq<ObjectId>, i: nat, d: ObjectId)
    requires i < |rows|
    ensures MatchAll(m, ops, rows[..i + 1], rows, d) == MatchRow(MatchAll(m, ops, rows[..i], rows, d), ops, rows[i], rows, d)
  {
    assert rows[..i + 1][..i] == rows[..i];
  }

  /**
   * The match relation: `x` belongs in the list of `k` because of the pair (a, b): both
   * opinions exist, their scales differ, `k` is (author of a, d) and `x` is b.
   */
  ghost predicate Differ(ops: seq<OpinionDoc>, a: ObjectId, b: ObjectId, d: ObjectId, k: MatchKey, x: ObjectId) {
    && FindOpinion(ops, a).Some? && FindOpinion(ops, b).Some?
    && FindOpinion(ops, a).value.likertScale != FindOpinion(ops, b).value.likertScale
    && k == MatchKey(FindOpinion(ops, a).value.author, d)
    && x == b
  }

  /** Every list of the match records is free of duplicates. */
  ghost predicate ListsNoDup(m: Matches) {
    forall k | k in m :: NoDup(m[k])
  }

  /** What one write adds, keeps and leaves alone. */
  lemma AddMatchSpec(m: Matches, k: MatchKey, x: ObjectId, k': MatchKey)
    ensures MatchList(m, k') <= MatchList(AddMatch(m, k, x), k')
    ensures forall y :: y in MatchList(AddMatch(m, k, x), k') <==> y in MatchList(m, k') || (k' == k && y == x)
    ensures k' in AddMatch(m, k, x) <==> k' in m || k' == k
    ensures k' != k && k' in m ==> AddMatch(m, k, x)[k'] == m[k']
    ensures NoDup(MatchList(m, k')) ==> NoDup(MatchList(AddMatch(m, k, x), k'))
  {
    if k' == k && x !in MatchList(m, k) {
      var l := MatchList(m, k);
      assert MatchList(AddMatch(m, k, x), k) == l + [x];
      if NoDup(l) {
        NoDupAppend(l, x);
      }
    }
  }

  /** The body of the pass for one pair, in terms of the match relation. */
  lemma MatchPairSpec(m: Matches, ops: seq<OpinionDoc>, a: ObjectId, b: ObjectId, d: ObjectId, k: MatchKey)
    ensures forall y :: y in MatchList(MatchPair(m, ops, a, b, d), k) <==>
      y in MatchList(m, k) || Differ(ops, a, b, d, k, y)
    ensures MatchList(m, k) <= MatchList(MatchPair(m, ops, a, b, d), k)
    ensures k in MatchPair(m, ops, a, b, d) <==> k in m || Differ(ops, a, b, d, k, b)
    ensures k.debate != d ==>
      (k in MatchPair(m, ops, a, b, d) <==> k in m) && MatchList(MatchPair(m, ops, a, b, d), k) == MatchList(m, k)
    ensures NoDup(MatchList(m, k)) ==> NoDup(MatchList(MatchPair(m, ops, a, b, d), k))
  {
    if FindOpinion(ops, a).Some? && FindOpinion(ops, b).Some? &&
       FindOpinion(ops, a).value.likertScale != FindOpinion(ops, b).value.likertScale {
      AddMatchSpec(m, MatchKey(FindOpinion(ops, a).value.author, d), b, k);
    }
  }

  /** The inner loop puts `x` in the list of `k` exactly when some pair (a, b) calls for it. */
  lemma {:induction false} MatchRowMembers(m: Matches, ops: seq<OpinionDoc>, a: ObjectId, bs: seq<ObjectId>, d: ObjectId,
                                           k: MatchKey, x: ObjectId)
    ensures x in MatchList(MatchRow(m, ops, a, bs, d), k) <==>
      x in MatchList(m, k) || exists j | 0 <= j < |bs| :: Differ(ops, a, bs[j], d, k, x)
  {
    if bs != [] {
      var init := bs[..|bs| - 1];
      MatchRowMembers(m, ops, a, init, d, k, x);
      MatchPairSpec(MatchRow(m, ops, a, init, d), ops, a, bs[|bs| - 1], d, k);
      assert forall j | 0 <= j < |init| :: bs[j] == init[j];
    }
  }

  /** The inner loop creates the record of `k` exactly when some pair (a, b) calls for it. */
  lemma {:induction false} MatchRowKeys(m: Matches, ops: seq<OpinionDoc>, a: ObjectId, bs: seq<ObjectId>, d: ObjectId,
                                        k: MatchKey)
    ensures k in MatchRow(m, ops, a, bs, d) <==>
      k in m || exists j | 0 <= j < |bs| :: Differ(ops, a, bs[j], d, k, bs[j])
  {
    if bs != [] {
      var init := bs[..|bs| - 1];
      MatchRowKeys(m, ops, a, init, d, k);
      MatchPairSpec(MatchRow(m, ops, a, init, d), ops, a, bs[|bs| - 1], d, k);
      assert forall j | 0 <= j < |init| :: bs[j] == init[j];
    }
  }

  /** The inner loop only appends, keeps lists free of duplicates and leaves other debates alone. */
  lemma {:induction false} MatchRowFrame(m: Matches, ops: seq<OpinionDoc>, a: ObjectId, bs: seq<ObjectId>, d: ObjectId,
                                         k: MatchKey)
    ensures MatchList(m, k) <= MatchList(MatchRow(m, ops, a, bs, d), k)
    ensures NoDup(MatchList(m, k)) ==> NoDup(MatchList(MatchRow(m, ops, a, bs, d), k))
    ensures k.debate != d ==>
      (k in MatchRow(m, ops, a, bs, d) <==> k in m) && MatchList(MatchRow(m, ops, a, bs, d), k) == MatchList(m, k)
  {
    if bs != [] {
      var init := bs[..|bs| - 1];
      MatchRowFrame(m, ops, a, init, d, k);
      MatchPairSpec(MatchRow(m, ops, a, init, d), ops, a, bs[|bs| - 1], d, k);
    }
  }

  /** The pass puts `x` in the list of `k` exactly when some pair of `rows` x `bs` calls for it. */
  lemma {:induction false} MatchAllMembers(m: Matches, ops: seq<OpinionDoc>, rows: seq<ObjectId>, bs: seq<ObjectId>,
                                           d: ObjectId, k: MatchKey, x: ObjectId)
    ensures x in MatchList(MatchAll(m, ops, rows, bs, d), k) <==>
      x in MatchList(m, k) ||
      exists i, j | 0 <= i < |rows| && 0 <= j < |bs| :: Differ(ops, rows[i], bs[j], d, k, x)
  {
    if rows != [] {
      var init, a := rows[..|rows| - 1], rows[|rows| - 1];
      MatchAllMembers(m, ops, init, bs, d, k, x);
      MatchRowMembers(MatchAll(m, ops, init, bs, d), ops, a, bs, d, k, x);
      assert forall i | 0 <= i < |init| :: rows[i] == init[i];
      if exists j | 0 <= j < |bs| :: Differ(ops, a, bs[j], d, k, x) {
        var j :| 0 <= j < |bs| && Differ(ops, a, bs[j], d, k, x);
        assert Differ(ops, rows[|rows| - 1], bs[j], d, k, x);
      }
      if exists i, j | 0 <= i < |rows| && 0 <= j < |bs| :: Differ(ops, rows[i], bs[j], d, k, x) {
        var i, j :| 0 <= i < |rows| && 0 <= j < |bs| && Differ(ops, rows[i], bs[j], d, k, x);
        if i == |rows| - 1 {
          assert Differ(ops, a, bs[j], d, k, x);
        } else {
          assert Differ(ops, init[i], bs[j], d, k, x);
        }
      }
    }
  }

  /** The pass creates the record of `k` exactly when some pair of `rows` x `bs` calls for it. */
  lemma {:induction false} MatchAllKeys(m: Matches, ops: seq<OpinionDoc>, rows: seq<ObjectId>, bs: seq<ObjectId>,
                                        d: ObjectId, k: MatchKey)
    ensures k in MatchAll(m, ops, rows, bs, d) <==>
      k in m || exists i, j | 0 <= i < |rows| && 0 <= j < |bs| :: Differ(ops, rows[i], bs[j], d, k, bs[j])
  {
    if rows != [] {
      var init, a := rows[..|rows| - 1], rows[|rows| - 1];
      MatchAllKeys(m, ops, init, bs, d, k);
      MatchRowKeys(MatchAll(m, ops, init, bs, d), ops, a, bs, d, k);
      assert forall i | 0 <= i < |init| :: rows[i] == init[i];
      if exists j | 0 <= j < |bs| :: Differ(ops, a, bs[j], d, k, bs[j]) {
        var j :| 0 <= j < |bs| && Differ(ops, a, bs[j], d, k, bs[j]);
        assert Differ(ops, rows[|rows| - 1], bs[j], d, k, bs[j]);
      }
      if exists i, j | 0 <= i < |rows| && 0 <= j < |bs| :: Differ(ops, rows[i], bs[j], d, k, bs[j]) {
        var i, j :| 0 <= i < |rows| && 0 <= j < |bs| && Differ(ops, rows[i], bs[j], d, k, bs[j]);
        if i == |rows| - 1 {
          assert Differ(ops, a, bs[j], d, k, bs[j]);
        } else {
          assert Differ(ops, init[i], bs[j], d, k, bs[j]);
        }
      }
    }
  }

  /** The pass only appends, keeps lists free of duplicates and leaves other debates' records alone. */
  lemma {:induction false} MatchAllFrame(m: Matches, ops: seq<OpinionDoc>, rows: seq<ObjectId>, bs: seq<ObjectId>,
                                         d: ObjectId, k: MatchKey)
    ensures MatchList(m, k) <= MatchList(MatchAll(m, ops, rows, bs, d), k)
    ensures NoDup(MatchList(m, k)) ==> NoDup(MatchList(MatchAll(m, ops, rows, bs, d), k))
    ensures k.debate != d ==>
      (k in MatchAll(m, ops, rows, bs, d) <==> k in m) &&
      MatchList(MatchAll(m, ops, rows, bs, d), k) == MatchList(m, k)
  {
    if rows != [] {
      var init := rows[..|rows| - 1];
      MatchAllFrame(m, ops, init, bs, d, k);
      MatchRowFrame(MatchAll(m, ops, init, bs, d), ops, rows[|rows| - 1], bs, d, k);
    }
  }

  /** A pass changes nothing when each of its pairs is already recorded. */
  lemma {:induction false} MatchAllFixed(m: Matches, ops: seq<OpinionDoc>, rows: seq<ObjectId>, bs: seq<ObjectId>,
                                         d: ObjectId)
    requires forall i, j | 0 <= i < |rows| && 0 <= j < |bs| :: MatchPair(m, ops, rows[i], bs[j], d) == m
    ensures MatchAll(m, ops, rows, bs, d) == m
  {
    if rows != [] {
      var init, a := rows[..|rows| - 1], rows[|rows| - 1];
      assert forall i, j | 0 <= i < |init| && 0 <= j < |bs| :: MatchPair(m, ops, init[i], bs[j], d) == m by {
        assert forall i | 0 <= i < |init| :: init[i] == rows[i];
      }
      MatchAllFixed(m, ops, init, bs, d);
      MatchRowFixed(m, ops, a, bs, d);
    }
  }

  lemma {:induction false} MatchRowFixed(m: Matches, ops: seq<OpinionDoc>, a: ObjectId, bs: seq<ObjectId>, d: ObjectId)
    requires forall j | 0 <= j < |bs| :: MatchPair(m, ops, a, bs[j], d) == m
    ensures MatchRow(m, ops, a, bs, d) == m
  {
    if bs != [] {
      var init := bs[..|bs| - 1];
      assert forall j | 0 <= j < |init| :: init[j] == bs[j];
      MatchRowFixed(m, ops, a, init, d);
    }
  }

  /** Running the matching pass a second time changes nothing. */
  lemma MatchAllIdempotent(m: Matches, ops: seq<OpinionDoc>, rows: seq<ObjectId>, bs: seq<ObjectId>, d: ObjectId)
    ensures MatchAll(MatchAll(m, ops, rows, bs, d), ops, rows, bs, d) == MatchAll(m, ops, rows, bs, d)
  {
    var m' := MatchAll(m, ops, rows, bs, d);
    forall i, j | 0 <= i < |rows| && 0 <= j < |bs|
      ensures MatchPair(m', ops, rows[i], bs[j], d) == m'
    {
      var a, b := rows[i], bs[j];
      if FindOpinion(ops, a).Some? && FindOpinion(ops, b).Some? &&
         FindOpinion(ops, a).value.likertScale != FindOpinion(ops, b).value.likertScale {
        var k := MatchKey(FindOpinion(ops, a).value.author, d);
        assert Differ(ops, rows[i], bs[j], d, k, b);
        MatchAllMembers(m, ops, rows, bs, d, k, b);
        assert b in MatchList(m', k);
      }
    }
    MatchAllFixed(m', ops, rows, bs, d);
  }

  /** No two of the ids `rows` name different opinions by one author. */
  ghost predicate DistinctAuthors(ops: seq<OpinionDoc>, rows: seq<ObjectId>) {
    forall i, i' | 0 <= i < |rows| && 0 <= i' < |rows| && FindOpinion(ops, rows[i]).Some? &&
                   FindOpinion(ops, rows[i']).Some? &&
                   FindOpinion(ops, rows[i]).value.author == FindOpinion(ops, rows[i']).value.author
      :: rows[i] == rows[i']
  }

  /**
   * When each author has one opinion among `rows`, the pass never gives a reviewer an
   * opinion with the same scale as the reviewer's own, and so never the reviewer's own.
   */
  lemma MatchAllKeepsScales(m: Matches, ops: seq<OpinionDoc>, rows: seq<ObjectId>, bs: seq<ObjectId>, d: ObjectId,
                            i: nat, j: nat)
    requires DistinctAuthors(ops, rows)
    requires i < |rows| && j < |bs| && FindOpinion(ops, rows[i]).Some? && FindOpinion(ops, bs[j]).Some?
    requires FindOpinion(ops, rows[i]).value.likertScale == FindOpinion(ops, bs[j]).value.likertScale
    ensures var k := MatchKey(FindOpinion(ops, rows[i]).value.author, d);
      bs[j] in MatchList(MatchAll(m, ops, rows, bs, d), k) <==> bs[j] in MatchList(m, k)
  {
    var k := MatchKey(FindOpinion(ops, rows[i]).value.author, d);
    MatchAllMembers(m, ops, rows, bs, d, k, bs[j]);
  }

  /** The matching pass never matches a reviewer to their own opinion. */
  lemma MatchAllNeverOwn(m: Matches, ops: seq<OpinionDoc>, rows: seq<ObjectId>, d: ObjectId, i: nat)
    requires DistinctAuthors(ops, rows)
    requires i < |rows| && FindOpinion(ops, rows[i]).Some?
    ensures var k := MatchKey(FindOpinion(ops, rows[i]).value.author, d);
      rows[i] in MatchList(MatchAll(m, ops, rows, rows, d), k) <==> rows[i] in MatchList(m, k)
  {
    MatchAllKeepsScales(m, ops, rows, rows, d, i, i);
  }

  // ---------------------------------------------------------------------------
  // Lookups after the opinion table changes
  // ---------------------------------------------------------------------------

  lemma OpinionIdsCons(s: seq<OpinionDoc>)
    requires s != []
    ensures OpinionIds(s) == [s[0].id] + OpinionIds(s[1..])
  {
  }

  /** A new opinion with a fresh id is found under that id and hides no other. */
  lemma FindOpinionAppend(s: seq<OpinionDoc>, o: OpinionDoc, x: ObjectId)
    ensures FindOpinion(s + [o], x) ==
      if x in OpinionIds(s) then FindOpinion(s, x) else if x == o.id then Some(o) else None
  {
    assert OpinionIds(s + [o]) == OpinionIds(s) + [o.id];
    IndexOfAppend(OpinionIds(s), o.id, x);
  }

  /**
   * The repeat submission: the first opinion by `user` gets the new content, and only
   * its content; every opinion keeps its id, author and scale.
   */
  lemma UpdateContentSpec(s: seq<OpinionDoc>, user: User, content: string)
    ensures var r := UpdateContentByAuthor(s, user, content);
      && |r| == |s| && OpinionIds(r) == OpinionIds(s) && Authors(r) == Authors(s)
      && (forall i | 0 <= i < |s| :: r[i].likertScale == s[i].likertScale)
      && (forall i | 0 <= i < |s| && i != IndexOf(Authors(s), user) :: r[i] == s[i])
      && (user in Authors(s) ==>
            var i := IndexOf(Authors(s), user);
            s[i].author == user && r[i] == s[i].(content := content) &&
            forall i' | 0 <= i' < i :: s[i'].author != user)
  {
    var r, i := UpdateContentByAuthor(s, user, content), IndexOf(Authors(s), user);
    if i >= 0 {
      assert Authors(s)[..i] == Authors(s[..i]);
      assert forall i' | 0 <= i' < i :: s[i'].author == Authors(s[..i])[i'];
    }
  }

  /** After the repeat submission every id finds an opinion with the same id, author and scale. */
  lemma FindOpinionUpdate(s: seq<OpinionDoc>, user: User, content: string, x: ObjectId)
    ensures var r := FindOpinion(UpdateContentByAuthor(s, user, content), x);
      && (r.Some? <==> FindOpinion(s, x).Some?)
      && (r.Some? ==> r.value.author == FindOpinion(s, x).value.author &&
                      r.value.likertScale == FindOpinion(s, x).value.likertScale)
  {
    UpdateContentSpec(s, user, content);
  }

  /** Finding an opinion in a nonempty table: the first record, or a find in the rest. */
  lemma FindOpinionCons(s: seq<OpinionDoc>, x: ObjectId)
    requires s != []
    ensures FindOpinion(s, x) == if s[0].id == x then Some(s[0]) else FindOpinion(s[1..], x)
  {
    OpinionIdsCons(s);
  }

  /** After removing the opinions `ids`, those are missing and every other id finds what it found. */
  lemma {:induction false} FindOpinionWithout(s: seq<OpinionDoc>, ids: seq<ObjectId>, x: ObjectId)
    ensures FindOpinion(WithoutIds(s, ids), x) == if x in ids then None else FindOpinion(s, x)
  {
    if s != [] {
      FindOpinionWithout(s[1..], ids, x);
      FindOpinionCons(s, x);
      var w, rest := WithoutIds(s, ids), WithoutIds(s[1..], ids);
      if s[0].id in ids {
        assert w == rest;
      } else {
        assert w == [s[0]] + rest;
        FindOpinionCons(w, x);
        assert w[1..] == rest;
      }
    }
  }

  /** Removing opinions leaves each remaining id at most as often as before. */
  lemma {:induction false} WithoutIdsSub(s: seq<OpinionDoc>, ids: seq<ObjectId>)
    ensures multiset(OpinionIds(WithoutIds(s, ids))) <= multiset(OpinionIds(s))
  {
    if s != [] {
      WithoutIdsSub(s[1..], ids);
      OpinionIdsCons(s);
      var w, rest := WithoutIds(s, ids), WithoutIds(s[1..], ids);
      if s[0].id in ids {
        assert w == rest;
      } else {
        assert w == [s[0]] + rest;
        OpinionIdsCons(w);
        assert w[1..] == rest;
      }
    }
  }

  /** With unique ids, `deleteOne` by id is removal of every opinion with that id. */
  lemma {:induction false} DeleteOpinionIsWithout(s: seq<OpinionDoc>, x: ObjectId)
    requires NoDup(OpinionIds(s))
    ensures DeleteOpinion(s, x) == WithoutIds(s, [x])
  {
    if s != [] {
      var ids, tail := OpinionIds(s), OpinionIds(s[1..]);
      OpinionIdsCons(s);
      assert ids[1..] == tail;
      NoDupSub(tail, ids);
      DeleteOpinionIsWithout(s[1..], x);
      var w := WithoutIds(s, [x]);
      if s[0].id == x {
        NoDupHead(ids);
        assert forall i | 0 <= i < |s[1..]| :: tail[i] == s[1..][i].id;
        WithoutIdsNone(s[1..], [x]);
        assert w == s[1..];
        assert IndexOf(ids, x) == 0;
        assert DeleteOpinion(s, x) == RemoveAt(s, 0) == s[1..];
      } else {
        assert w == [s[0]] + WithoutIds(s[1..], [x]);
        var j := IndexOf(tail, x);
        assert IndexOf(ids, x) == if j < 0 then -1 else j + 1;
        if j >= 0 {
          RemoveAtCons(s, j + 1);
          assert DeleteOpinion(s, x) == RemoveAt(s, j + 1);
          assert DeleteOpinion(s[1..], x) == RemoveAt(s[1..], j);
        } else {
          assert DeleteOpinion(s, x) == s;
          assert DeleteOpinion(s[1..], x) == s[1..];
          assert [s[0]] + s[1..] == s;
        }
      }
    }
  }

  /** Removing ids that no opinion has changes nothing. */
  lemma {:induction false} WithoutIdsNone(s: seq<OpinionDoc>, ids: seq<ObjectId>)
    requires forall i | 0 <= i < |s| :: s[i].id !in ids
    ensures WithoutIds(s, ids) == s
  {
    if s != [] {
      WithoutIdsNone(s[1..], ids);
    }
  }

  /** Removing the ids `ids` and then `x` is removing `ids + [x]`. */
  lemma {:induction false} WithoutIdsThen(s: seq<OpinionDoc>, ids: seq<ObjectId>, x: ObjectId)
    ensures WithoutIds(WithoutIds(s, ids), [x]) == WithoutIds(s, ids + [x])
  {
    if s != [] {
      WithoutIdsThen(s[1..], ids, x);
      var w, rest := WithoutIds(s, ids), WithoutIds(s[1..], ids);
      if s[0].id in ids {
        assert w == rest;
      } else {
        assert w == [s[0]] + rest;
        assert w[1..] == rest;
      }
    }
  }

  // ---------------------------------------------------------------------------
  // The concept's state and its invariant
  // ---------------------------------------------------------------------------

  /** The three tables of the concept. */
  datatype Tables = Tables(debates: map<ObjectId, DebateDoc>, opinions: seq<OpinionDoc>, matches: Matches)

  /**
   * A debate's lists line up: no participant twice, one opinion per participant, and the
   * i-th opinion exists and is written by the i-th participant.
   */
  ghost predicate WellFormed(d: DebateDoc, ops: seq<OpinionDoc>) {
    && NoDup(d.participants)
    && |d.participants| == |d.opinions|
    && forall i | 0 <= i < |d.opinions| :: AuthoredBy(ops, d.opinions[i], d.participants[i])
  }

  /** No two debates share a prompt. */
  ghost predicate PromptsUnique(ds: map<ObjectId, DebateDoc>) {
    forall a, b | a in ds && b in ds && a != b :: ds[a].prompt != ds[b].prompt
  }

  /** No opinion is listed by two debates. */
  ghost predicate ListsDisjoint(ds: map<ObjectId, DebateDoc>) {
    forall a, b, x | a in ds && b in ds && a != b && x in ds[a].opinions :: x !in ds[b].opinions
  }

  /**
   * The invariant the operations keep. `nextId` is the next identifier the store hands
   * out; every debate and opinion id is below it.
   */
  ghost predicate Inv(t: Tables, nextId: ObjectId) {
    && (forall id | id in t.debates :: id < nextId)
    && (forall x | x in OpinionIds(t.opinions) :: x < nextId)
    && NoDup(OpinionIds(t.opinions))
    && PromptsUnique(t.debates)
    && (forall id | id in t.debates :: WellFormed(t.debates[id], t.opinions))
    && ListsDisjoint(t.debates)
    && ListsNoDup(t.matches)
  }

  /** `debates.readOne({ prompt })` finds a debate. */
  predicate PromptUsed(ds: map<ObjectId, DebateDoc>, prompt: string) {
    exists id | id in ds :: ds[id].prompt == prompt
  }

  /** `suggestPrompt`: a new debate with empty lists under the fresh id `n`. */
  function Suggested(t: Tables, n: ObjectId, prompt: string, category: string): Tables {
    t.(debates := t.debates[n := DebateDoc(prompt, category, [], [])])
  }

  /** A first-time participant: the user and the new opinion `n` join the debate's lists. */
  function FirstSubmission(t: Tables, n: ObjectId, id: ObjectId, user: User, content: string, scale: string): Tables
    requires id in t.debates
  {
    var d := t.debates[id];
    t.(debates := t.debates[id := d.(participants := d.participants + [user], opinions := d.opinions + [n])],
       opinions := t.opinions + [OpinionDoc(n, content, user, scale)])
  }

  /** A repeat submission: only the opinion table changes. */
  function RepeatSubmission(t: Tables, user: User, content: string): Tables {
    t.(opinions := UpdateContentByAuthor(t.opinions, user, content))
  }

  /** The matching pass over a debate's opinions, each against each. */
  function Matched(t: Tables, id: ObjectId): Tables
    requires id in t.debates
  {
    var ids := t.debates[id].opinions;
    t.(matches := MatchAll(t.matches, t.opinions, ids, ids, id))
  }

  /** The match records of one debate (`readMany({ debate })`). */
  function ForDebate(m: Matches, id: ObjectId): Matches {
    map k | k in m && k.debate == id :: m[k]
  }

  /** `delete`: the debate, its opinions and its match records go. */
  function Deleted(t: Tables, id: ObjectId): Tables
    requires id in t.debates
  {
    Tables(t.debates - {id}, WithoutIds(t.opinions, t.debates[id].opinions),
           map k | k in t.matches && k.debate != id :: t.matches[k])
  }

  /** Every opinion a debate lists exists, so its id is below `nextId`. */
  lemma ListedExist(t: Tables, nextId: ObjectId, id: ObjectId, x: ObjectId)
    requires Inv(t, nextId) && id in t.debates && x in t.debates[id].opinions
    ensures FindOpinion(t.opinions, x).Some? && x < nextId
  {
    var d := t.debates[id];
    var i :| 0 <= i < |d.opinions| && d.opinions[i] == x;
    assert AuthoredBy(t.opinions, d.opinions[i], d.participants[i]);
  }

  /** `suggestPrompt` keeps the invariant, and the prompt is then in use. */
  lemma SuggestedInv(t: Tables, n: ObjectId, prompt: string, category: string)
    requires Inv(t, n) && !PromptUsed(t.debates, prompt)
    ensures n !in t.debates
    ensures Inv(Suggested(t, n, prompt, category), n + 1)
    ensures PromptUsed(Suggested(t, n, prompt, category).debates, prompt)
  {
    var t' := Suggested(t, n, prompt, category);
    assert t'.debates[n].prompt == prompt;
    forall a, b | a in t'.debates && b in t'.debates && a != b
      ensures t'.debates[a].prompt != t'.debates[b].prompt
    {
      if a != n && b != n {
        assert t'.debates[a] == t.debates[a] && t'.debates[b] == t.debates[b];
      }
    }
  }

  /** After a first submission the new opinion is found, and every other one as before. */
  lemma FirstSubmissionFinds(t: Tables, n: ObjectId, id: ObjectId, user: User, content: string, scale: string)
    requires Inv(t, n) && id in t.debates
    ensures var ops := FirstSubmission(t, n, id, user, content, scale).opinions;
      && OpinionIds(ops) == OpinionIds(t.opinions) + [n]
      && NoDup(OpinionIds(ops))
      && FindOpinion(ops, n) == Some(OpinionDoc(n, content, user, scale))
      && forall x | x in OpinionIds(t.opinions) :: FindOpinion(ops, x) == FindOpinion(t.opinions, x)
  {
    var ops, o := FirstSubmission(t, n, id, user, content, scale).opinions, OpinionDoc(n, content, user, scale);
    assert OpinionIds(ops) == OpinionIds(t.opinions) + [n];
    NoDupAppend(OpinionIds(t.opinions), n);
    FindOpinionAppend(t.opinions, o, n);
    forall x | x in OpinionIds(t.opinions) ensures FindOpinion(ops, x) == FindOpinion(t.opinions, x) {
      FindOpinionAppend(t.opinions, o, x);
    }
  }

  /** After a first submission every debate's lists still line up. */
  lemma FirstSubmissionWellFormed(t: Tables, n: ObjectId, id: ObjectId, user: User, content: string, scale: string)
    requires Inv(t, n) && id in t.debates && user !in t.debates[id].participants
    ensures var t' := FirstSubmission(t, n, id, user, content, scale);
      forall b | b in t'.debates :: WellFormed(t'.debates[b], t'.opinions)
  {
    var t' := FirstSubmission(t, n, id, user, content, scale);
    var d := t.debates[id];
    FirstSubmissionFinds(t, n, id, user, content, scale);
    NoDupAppend(d.participants, user);
    var d' := t'.debates[id];
    forall i | 0 <= i < |d'.opinions| ensures AuthoredBy(t'.opinions, d'.opinions[i], d'.participants[i]) {
      if i < |d.opinions| {
        assert AuthoredBy(t.opinions, d.opinions[i], d.participants[i]);
      }
    }
    forall b | b in t'.debates && b != id ensures WellFormed(t'.debates[b], t'.opinions) {
      var e := t.debates[b];
      assert WellFormed(e, t.opinions);
      forall i | 0 <= i < |e.opinions| ensures AuthoredBy(t'.opinions, e.opinions[i], e.participants[i]) {
        assert AuthoredBy(t.opinions, e.opinions[i], e.participants[i]);
      }
    }
  }

  /** A first submission keeps the invariant. */
  lemma FirstSubmissionInv(t: Tables, n: ObjectId, id: ObjectId, user: User, content: string, scale: string)
    requires Inv(t, n) && id in t.debates && user !in t.debates[id].participants
    ensures Inv(FirstSubmission(t, n, id, user, content, scale), n + 1)
  {
    var t' := FirstSubmission(t, n, id, user, content, scale);
    FirstSubmissionFinds(t, n, id, user, content, scale);
    FirstSubmissionWellFormed(t, n, id, user, content, scale);
    forall a, b, x | a in t'.debates && b in t'.debates && a != b && x in t'.debates[a].opinions
      ensures x !in t'.debates[b].opinions
    {
      if x == n {
        var c := if a == id then b else a;
        if n in t.debates[c].opinions {
          ListedExist(t, n, c, n);
        }
      }
    }
    assert PromptsUnique(t'.debates) by {
      forall a, b | a in t'.debates && b in t'.debates && a != b
        ensures t'.debates[a].prompt != t'.debates[b].prompt
      {
        assert t'.debates[a].prompt == t.debates[a].prompt && t'.debates[b].prompt == t.debates[b].prompt;
      }
    }
  }

  /** A repeat submission keeps the invariant: no id, author or list changes. */
  lemma RepeatSubmissionInv(t: Tables, n: ObjectId, user: User, content: string)
    requires Inv(t, n)
    ensures Inv(RepeatSubmission(t, user, content), n)
  {
    var t' := RepeatSubmission(t, user, content);
    UpdateContentSpec(t.opinions, user, content);
    forall b | b in t'.debates ensures WellFormed(t'.debates[b], t'.opinions) {
      var e := t.debates[b];
      assert WellFormed(e, t.opinions);
      forall i | 0 <= i < |e.opinions| ensures AuthoredBy(t'.opinions, e.opinions[i], e.participants[i]) {
        FindOpinionUpdate(t.opinions, user, content, e.opinions[i]);
      }
    }
  }

  /** Under the invariant, each author has one opinion in a debate. */
  lemma InvDistinctAuthors(t: Tables, n: ObjectId, id: ObjectId)
    requires Inv(t, n) && id in t.debates
    ensures DistinctAuthors(t.opinions, t.debates[id].opinions)
  {
    var d := t.debates[id];
    assert WellFormed(d, t.opinions);
    forall i, i' | 0 <= i < |d.opinions| && 0 <= i' < |d.opinions| && FindOpinion(t.opinions, d.opinions[i]).Some? &&
                   FindOpinion(t.opinions, d.opinions[i']).Some? &&
                   FindOpinion(t.opinions, d.opinions[i]).value.author ==
                   FindOpinion(t.opinions, d.opinions[i']).value.author
      ensures d.opinions[i] == d.opinions[i']
    {
      assert AuthoredBy(t.opinions, d.opinions[i], d.participants[i]);
      assert AuthoredBy(t.opinions, d.opinions[i'], d.participants[i']);
      NoDupIndex(d.participants, i, i');
    }
  }

  /** The matching pass keeps the invariant. */
  lemma MatchedInv(t: Tables, n: ObjectId, id: ObjectId)
    requires Inv(t, n) && id in t.debates
    ensures Inv(Matched(t, id), n)
  {
    var ids := t.debates[id].opinions;
    var m' := Matched(t, id).matches;
    forall k | k in m' ensures NoDup(m'[k]) {
      MatchAllFrame(t.matches, t.opinions, ids, ids, id, k);
    }
  }

  /** `removeDifferentOpinion` on a present id keeps the invariant and removes that id. */
  lemma RemovedInv(t: Tables, n: ObjectId, k: MatchKey, i: nat)
    requires Inv(t, n) && k in t.matches && i < |t.matches[k]|
    ensures Inv(t.(matches := t.matches[k := RemoveAt(t.matches[k], i)]), n)
    ensures t.matches[k][i] !in RemoveAt(t.matches[k], i)
  {
    RemoveAtNoDup(t.matches[k], i);
  }

  /**
   * `delete`: the debate is gone, its opinions are not found any more, every other
   * opinion is found as before, and only the debate's own match records are removed.
   */
  lemma DeletedSpec(t: Tables, id: ObjectId, x: ObjectId)
    requires id in t.debates
    ensures var t' := Deleted(t, id);
      && id !in t'.debates
      && (forall b | b in t.debates && b != id :: b in t'.debates && t'.debates[b] == t.debates[b])
      && FindOpinion(t'.opinions, x) == (if x in t.debates[id].opinions then None else FindOpinion(t.opinions, x))
      && (forall k :: k in t'.matches <==> k in t.matches && k.debate != id)
      && (forall k | k in t'.matches :: t'.matches[k] == t.matches[k])
  {
    FindOpinionWithout(t.opinions, t.debates[id].opinions, x);
  }

  /** `delete` keeps the invariant. */
  lemma DeletedInv(t: Tables, n: ObjectId, id: ObjectId)
    requires Inv(t, n) && id in t.debates
    ensures Inv(Deleted(t, id), n)
  {
    var t', gone := Deleted(t, id), t.debates[id].opinions;
    WithoutIdsSub(t.opinions, gone);
    NoDupSub(OpinionIds(t'.opinions), OpinionIds(t.opinions));
    forall b | b in t'.debates ensures WellFormed(t'.debates[b], t'.opinions) {
      var e := t.debates[b];
      assert WellFormed(e, t.opinions);
      forall i | 0 <= i < |e.opinions| ensures AuthoredBy(t'.opinions, e.opinions[i], e.participants[i]) {
        assert AuthoredBy(t.opinions, e.opinions[i], e.participants[i]);
        assert e.opinions[i] !in gone;
        FindOpinionWithout(t.opinions, gone, e.opinions[i]);
      }
    }
    forall x | x in OpinionIds(t'.opinions) ensures x < n {
      assert x in multiset(OpinionIds(t'.opinions));
      assert x in multiset(OpinionIds(t.opinions));
      assert x in OpinionIds(t.opinions);
    }
  }
}
