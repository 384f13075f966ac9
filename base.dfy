/**
 * Shared vocabulary of the two concepts: record identifiers generated by the
 * document store, the error kinds the concepts throw, result wrappers, and the
 * "first match in insertion order" lookup that models `readOne`/`indexOf`.
 */
module Base {

  /** An identifier minted by the document store's `createOne` (a MongoDB ObjectId). */
  type ObjectId = nat

  /** The error kinds thrown by the two concepts. */
  datatype Error =
    | NotFound                    // NotFoundError
    | NotAllowed                  // NotAllowedError
    | BadValues(value: int)       // BadValuesError: a rejected configuration value
    | KeyExists(key: ObjectId)    // KeyExistsError: key already active or stored
    | NoPhase(key: ObjectId)      // NoPhaseError: key has no active phase
    | UsedPrompt(prompt: string)  // UsedPromptError: prompt already used by a debate

  /** The value an operation returns, or the error it throws. */
  datatype Result<T> = Ok(value: T) | Err(error: Error)

  /** A record that a lookup may or may not find. */
  datatype Option<T> = None | Some(value: T)

  /** No element occurs twice. */
  ghost predicate NoDup<T>(s: seq<T>) {
    forall x | x in s :: multiset(s)[x] == 1
  }

  function Min(a: int, b: int): int {
    if a <= b then a else b
  }

  /**
   * Position of the first occurrence of `x` in `s`, or -1 when there is none;
   * this is JavaScript's `Array.prototype.indexOf` and, applied to a projection
   * of a collection, the record that `readOne`/`updateOne`/`deleteOne` act on.
   */
  function IndexOf<T(==)>(s: seq<T>, x: T): (i: int)
    ensures -1 <= i < |s|
    ensures i == -1 <==> x !in s
    ensures 0 <= i ==> s[i] == x && x !in s[..i]
  {
    if |s| == 0 then -1
    else if s[0] == x then 0
    else
      var j := IndexOf(s[1..], x);
      if j == -1 then -1 else j + 1
  }

  /** `s` with position `i` cut out, as `splice(i, 1)` does. */
  function RemoveAt<T>(s: seq<T>, i: nat): (r: seq<T>)
    requires i < |s|
    ensures |r| == |s| - 1
    ensures multiset(r) == multiset(s) - multiset{s[i]}
  {
    assert s == s[..i] + [s[i]] + s[i + 1..];
    s[..i] + s[i + 1..]
  }

  /** Removing an element keeps a duplicate-free sequence duplicate-free, and the element is gone. */
  lemma RemoveAtNoDup<T>(s: seq<T>, i: nat)
    requires i < |s| && NoDup(s)
    ensures NoDup(RemoveAt(s, i)) && s[i] !in RemoveAt(s, i)
  {
    var r := RemoveAt(s, i);
    assert multiset(s)[s[i]] == 1;
    assert multiset(r)[s[i]] == 0;
  }

  /** A sequence whose elements occur no more often than in a duplicate-free one is duplicate-free. */
  lemma NoDupSub<T>(a: seq<T>, b: seq<T>)
    requires multiset(a) <= multiset(b) && NoDup(b)
    ensures NoDup(a)
  {
    forall x | x in a
      ensures multiset(a)[x] == 1
    {
      assert x in multiset(b);
    }
  }

  /** Cutting out, or overwriting, the element that follows `prev`. */
  lemma SpliceAfter<T>(prev: seq<T>, x: T, rest: seq<T>, y: T)
    ensures var a := prev + [x] + rest;
      && |prev| < |a| && a[|prev|] == x
      && a[..|prev|] + a[|prev| + 1..] == prev + rest
      && a[|prev| := y] == prev + [y] + rest
  {
    var a := prev + [x] + rest;
    assert a[..|prev|] == prev;
    assert a[|prev| + 1..] == rest;
  }

  /** Two positions holding the same element of a duplicate-free sequence are one position. */
  lemma NoDupIndex<T>(s: seq<T>, i: nat, j: nat)
    requires NoDup(s) && i < |s| && j < |s| && s[i] == s[j]
    ensures i == j
  {
    if i < j {
      CountTwo(s, i, j);
    } else if j < i {
      CountTwo(s, j, i);
    }
  }

  /** An element at two positions occurs at least twice. */
  lemma CountTwo<T>(s: seq<T>, i: nat, j: nat)
    requires i < j < |s| && s[i] == s[j]
    ensures multiset(s)[s[i]] >= 2
  {
    assert s == s[..i] + [s[i]] + s[i + 1..j] + [s[j]] + s[j + 1..];
  }

  /** Appending an element does not move the first occurrence of anything already present. */
  lemma IndexOfAppend<T>(s: seq<T>, y: T, x: T)
    ensures IndexOf(s + [y], x) == if x in s then IndexOf(s, x) else if x == y then |s| else -1
  {
    var i, t := IndexOf(s + [y], x), s + [y];
    if x in s {
      var j := IndexOf(s, x);
      assert t[j] == x;
      assert t[..j] == s[..j];
    } else if x == y {
      assert t[|s|] == x;
      assert t[..|s|] == s;
    }
  }

  /** The head of a duplicate-free sequence does not occur in its tail. */
  lemma NoDupHead<T>(s: seq<T>)
    requires s != [] && NoDup(s)
    ensures s[0] !in s[1..]
  {
    assert s == [s[0]] + s[1..];
    assert multiset(s)[s[0]] == 1;
  }

  /** Cutting out a position after the head keeps the head in front. */
  lemma RemoveAtCons<T>(s: seq<T>, i: nat)
    requires 0 < i < |s|
    ensures RemoveAt(s, i) == [s[0]] + RemoveAt(s[1..], i - 1)
  {
    assert s[..i] == [s[0]] + s[1..][..i - 1];
    assert s[i + 1..] == s[1..][i..];
  }

  /** Appending a new element keeps a sequence duplicate-free. */
  lemma NoDupAppend<T>(s: seq<T>, x: T)
    requires NoDup(s) && x !in s
    ensures NoDup(s + [x])
  {
    forall y | y in s + [x] ensures multiset(s + [x])[y] == 1 {
      if y != x {
        assert y in s;
      }
    }
  }
}
