/** The record type of the store and a specification of the store's
    contents as a sequence: which position an id selects ("the last match
    wins"), the lookup map the get handler builds, and what append,
    in-place replacement and removal do to every lookup. */
module Records {
  import Json

  datatype Option<T> = None | Some(value: T)

  /** One stored entry: a caller-chosen id (not unique) and its payload. */
  datatype Record = Record(id: string, data: Json.Value)

  /** The single record the store is seeded with at start-up. */
  const SeedRecord: Record := Record("1", Json.String("hello world"))

  /** Some record of `s` carries `id`. */
  predicate HasId(s: seq<Record>, id: string) {
    exists j :: 0 <= j < |s| && s[j].id == id
  }

  /** `i` is the largest position of `s` whose record carries `id`. */
  predicate IsLastMatch(s: seq<Record>, id: string, i: int) {
    0 <= i < |s| && s[i].id == id && forall j :: i < j < |s| ==> s[j].id != id
  }

  /** The position a linear scan that keeps overwriting its index ends on. */
  function LastIndex(s: seq<Record>, id: string): (r: Option<nat>)
    ensures r.None? <==> !HasId(s, id)
    ensures r.Some? ==> IsLastMatch(s, id, r.value)
  {
    if |s| == 0 then None
    else if s[|s| - 1].id == id then Some(|s| - 1)
    else LastIndex(s[..|s| - 1], id)
  }

  /** At most one position is the last match. */
  lemma {:induction false} LastMatchUnique(s: seq<Record>, id: string, i: int, k: int)
    requires IsLastMatch(s, id, i) && IsLastMatch(s, id, k)
    ensures i == k
  {
  }

  /** The scan ends on whichever position is the last match. */
  lemma {:induction false} LastIndexIsLastMatch(s: seq<Record>, id: string, k: int)
    requires IsLastMatch(s, id, k)
    ensures LastIndex(s, id) == Some(k)
  {
    assert HasId(s, id);
    LastMatchUnique(s, id, k, LastIndex(s, id).value);
  }

  /** The record a lookup of `id` yields, or None when no record has it. */
  function Lookup(s: seq<Record>, id: string): (r: Option<Record>)
    ensures r.None? <==> !HasId(s, id)
    ensures r.Some? ==> r.value.id == id && exists i :: IsLastMatch(s, id, i) && s[i] == r.value
  {
    match LastIndex(s, id)
    case None => None
    case Some(i) => Some(s[i])
  }

  /** The map from id to record built by inserting every record in order,
      so a later record overwrites an earlier one with the same id. */
  function IndexById(s: seq<Record>): (m: map<string, Record>)
    ensures forall j :: 0 <= j < |s| ==> s[j].id in m
    ensures forall k :: k in m ==> m[k].id == k && m[k] in s
  {
    if |s| == 0 then map[]
    else IndexById(s[..|s| - 1])[s[|s| - 1].id := s[|s| - 1]]
  }

  /** The map holds exactly the ids present, each bound to its last match. */
  lemma {:induction false} IndexByIdIsLookup(s: seq<Record>, id: string)
    ensures id in IndexById(s) <==> HasId(s, id)
    ensures id in IndexById(s) ==> Lookup(s, id) == Some(IndexById(s)[id])
  {
    if |s| > 0 && s[|s| - 1].id != id {
      IndexByIdIsLookup(s[..|s| - 1], id);
    }
  }

  /** How many records carry `id`. */
  function Count(s: seq<Record>, id: string): (n: nat)
    ensures n == 0 <==> !HasId(s, id)
    ensures n <= |s|
  {
    if |s| == 0 then 0
    else Count(s[..|s| - 1], id) + (if s[|s| - 1].id == id then 1 else 0)
  }

  /** `r` is `s` with its element at position `i` taken out: one shorter,
      the same before `i`, and shifted down by one from `i` on. */
  predicate RemovedAt(s: seq<Record>, r: seq<Record>, i: nat) {
    && i < |s|
    && |r| == |s| - 1
    && (forall j :: 0 <= j < i ==> r[j] == s[j])
    && (forall j :: i <= j < |r| ==> r[j] == s[j + 1])
  }

  /** The splice that removes position `i`. */
  function RemoveAt(s: seq<Record>, i: nat): (r: seq<Record>)
    requires i < |s|
    ensures RemovedAt(s, r, i)
  {
    s[..i] + s[i + 1..]
  }

  /** The scan over a concatenation ends in the second part if it can. */
  lemma {:induction false} LastIndexConcat(a: seq<Record>, b: seq<Record>, id: string)
    ensures LastIndex(a + b, id) ==
      match LastIndex(b, id)
      case Some(j) => Some(|a| + j)
      case None => LastIndex(a, id)
  {
    if |b| > 0 {
      var b' := b[..|b| - 1];
      assert (a + b)[..|a + b| - 1] == a + b';
      LastIndexConcat(a, b', id);
    } else {
      assert a + b == a;
    }
  }

  /** Counts add up over a concatenation. */
  lemma {:induction false} CountConcat(a: seq<Record>, b: seq<Record>, id: string)
    ensures Count(a + b, id) == Count(a, id) + Count(b, id)
  {
    if |b| > 0 {
      var b' := b[..|b| - 1];
      assert (a + b)[..|a + b| - 1] == a + b';
      CountConcat(a, b', id);
    } else {
      assert a + b == a;
    }
  }

  /** Create then get: the appended record is what its id now looks up to,
      even when earlier records share that id; other ids are unaffected. */
  lemma {:induction false} LookupAfterAppend(s: seq<Record>, r: Record, id: string)
    ensures Lookup(s + [r], id) == if id == r.id then Some(r) else Lookup(s, id)
  {
    LastIndexConcat(s, [r], id);
  }

  /** Overwriting a position with a record of the same id moves no scan. */
  lemma {:induction false} LastIndexAfterSameIdWrite(s: seq<Record>, i: nat, r: Record, id: string)
    requires i < |s| && s[i].id == r.id
    ensures LastIndex(s[i := r], id) == LastIndex(s, id)
  {
    var n := |s| - 1;
    if i < n {
      assert s[i := r][..n] == s[..n][i := r];
      LastIndexAfterSameIdWrite(s[..n], i, r, id);
    } else {
      assert s[i := r][..n] == s[..n];
    }
  }

  /** Update then get: replacing the last match of r.id makes r.id look up
      to r; every other id keeps its record. */
  lemma {:induction false} LookupAfterUpdate(s: seq<Record>, i: nat, r: Record, id: string)
    requires LastIndex(s, r.id) == Some(i)
    ensures Lookup(s[i := r], id) == if id == r.id then Some(r) else Lookup(s, id)
  {
    LastIndexAfterSameIdWrite(s, i, r, id);
  }

  /** Taking out a position other than the last match of `id` keeps that
      match last, one position lower if it lay past the removed one. */
  lemma {:induction false} LastMatchAfterRemoval(s: seq<Record>, r: seq<Record>, i: nat, id: string, k: nat)
    requires RemovedAt(s, r, i) && IsLastMatch(s, id, k) && k != i
    ensures IsLastMatch(r, id, if k < i then k else k - 1)
  {
    var k' := if k < i then k else k - 1;
    assert r[k'] == s[k];
    forall j | k' < j < |r| ensures r[j].id != id {
      if j < i { assert r[j] == s[j]; } else { assert r[j] == s[j + 1]; }
    }
  }

  /** Taking out a position adds no id. */
  lemma {:induction false} AbsentAfterRemoval(s: seq<Record>, r: seq<Record>, i: nat, id: string)
    requires RemovedAt(s, r, i) && !HasId(s, id)
    ensures !HasId(r, id)
  {
    forall j | 0 <= j < |r| ensures r[j].id != id {
      if j < i { assert r[j] == s[j]; } else { assert r[j] == s[j + 1]; }
    }
  }

  /** After removing the last match of `d`, a scan for `d` ends where it
      would on the part before the removed record. */
  lemma {:induction false} LastIndexAfterDeleteSame(s: seq<Record>, r: seq<Record>, i: nat, d: string)
    requires RemovedAt(s, r, i) && IsLastMatch(s, d, i)
    ensures LastIndex(r, d) == LastIndex(s[..i], d)
  {
    var pre := s[..i];
    match LastIndex(pre, d)
    case Some(k) =>
      assert IsLastMatch(s, d, i);
      assert IsLastMatch(r, d, k) by {
        assert r[k] == pre[k];
        forall j | k < j < |r| ensures r[j].id != d {
          if j < i { assert r[j] == pre[j]; } else { assert r[j] == s[j + 1]; }
        }
      }
      LastIndexIsLastMatch(r, d, k);
    case None =>
      assert !HasId(r, d) by {
        forall j | 0 <= j < |r| ensures r[j].id != d {
          if j < i { assert r[j] == pre[j]; } else { assert r[j] == s[j + 1]; }
        }
      }
  }

  /** After removing a record with id `d`, a scan for another id ends one
      position lower if it ended past the removed record, else where it did,
      and on the same record. */
  lemma {:induction false} LastIndexAfterDeleteOther(s: seq<Record>, r: seq<Record>, i: nat, d: string, id: string)
    requires RemovedAt(s, r, i) && s[i].id == d && id != d
    ensures LastIndex(s, id).None? ==> LastIndex(r, id).None?
    ensures LastIndex(s, id).Some? ==>
      var k := LastIndex(s, id).value;
      var k' := if k < i then k else k - 1;
      LastIndex(r, id) == Some(k') && r[k'] == s[k]
  {
    if HasId(s, id) {
      var k := LastIndex(s, id).value;
      LastMatchAfterRemoval(s, r, i, id, k);
      LastIndexIsLastMatch(r, id, if k < i then k else k - 1);
    } else {
      AbsentAfterRemoval(s, r, i, id);
    }
  }

  /** Delete then get: after removing the last match of `d`, a lookup of
      `d` finds the previous duplicate (if any), and every other id keeps
      its record. */
  lemma {:induction false} LookupAfterDelete(s: seq<Record>, i: nat, d: string, id: string)
    requires LastIndex(s, d) == Some(i)
    ensures Lookup(RemoveAt(s, i), id) == if id == d then Lookup(s[..i], id) else Lookup(s, id)
  {
    var r := RemoveAt(s, i);
    if id == d {
      LastIndexAfterDeleteSame(s, r, i, d);
      match LastIndex(s[..i], d)
      case None =>
      case Some(k) => assert r[k] == s[..i][k];
    } else {
      LastIndexAfterDeleteOther(s, r, i, d, id);
    }
  }

  /** Delete removes exactly one of the records carrying `d`, so a second
      delete of `d` finds nothing exactly when there was one to begin with. */
  lemma {:induction false} DeleteRemovesOne(s: seq<Record>, i: nat, d: string)
    requires LastIndex(s, d) == Some(i)
    ensures Count(RemoveAt(s, i), d) == Count(s, d) - 1
    ensures !HasId(RemoveAt(s, i), d) <==> Count(s, d) == 1
  {
    var pre, post := s[..i], s[i + 1..];
    assert s == (pre + [s[i]]) + post;
    assert RemoveAt(s, i) == pre + post;
    CountConcat(pre + [s[i]], post, d);
    CountConcat(pre, [s[i]], d);
    CountConcat(pre, post, d);
    assert [s[i]][..0] == [];
  }
}
