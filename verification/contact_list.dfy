/**
 * Pure operations on the ordered contact array: the scan for the insertion point,
 * sorted insertion, the full re-sort, and removal of every entry with a given id.
 */
module ContactList {
  import opened Wrappers
  import opened Contacts
  import opened Ordering

  /** `firstIndex { filteringLogic(first: c, second: $0) }`: the first position whose element `c` strictly precedes. */
  function FirstPreceded(cfg: Config, c: Contact, s: seq<Contact>): (r: Option<nat>)
    ensures r.Some? ==> r.value < |s| && Precedes(cfg, c, s[r.value])
    ensures r.Some? ==> forall j :: 0 <= j < r.value ==> !Precedes(cfg, c, s[j])
    ensures r.None? ==> forall j :: 0 <= j < |s| ==> !Precedes(cfg, c, s[j])
    decreases |s|
  {
    if s == [] then None
    else if Precedes(cfg, c, s[0]) then Some(0)
    else
      var rest := FirstPreceded(cfg, c, s[1..]);
      assert forall j :: 1 <= j < |s| ==> s[j] == s[1..][j - 1];
      match rest
      case None => None
      case Some(i) => Some(i + 1)
  }

  /** Inserting `c` at position `k` keeps the order when nothing before `k` is preceded by `c` and `s[k]` is. */
  lemma InsertAtKeepsSorted(cfg: Config, s: seq<Contact>, c: Contact, k: nat)
    requires k <= |s|
    requires forall j :: 0 <= j < k ==> !Precedes(cfg, c, s[j])
    requires k < |s| ==> Precedes(cfg, c, s[k])
    ensures Sorted(cfg, s) ==> Sorted(cfg, s[..k] + [c] + s[k..])
  {
    if !Sorted(cfg, s) {
      return;
    }
    var r := s[..k] + [c] + s[k..];
    forall i, j | 0 <= i < j < |r|
      ensures !Precedes(cfg, r[j], r[i])
    {
      if j == k {
        assert r[j] == c && r[i] == s[i];
      } else if j > k && i == k {
        assert r[j] == s[j - 1] && r[i] == c;
        if Precedes(cfg, s[j - 1], c) {
          PrecedesTransitive(cfg, s[j - 1], c, s[k]);
          if j - 1 == k {
            PrecedesIrreflexive(cfg, s[k]);
          }
        }
      } else if j > k && i < k {
        assert r[j] == s[j - 1] && r[i] == s[i];
      } else if j > k {
        assert r[j] == s[j - 1] && r[i] == s[i - 1];
      } else {
        assert r[j] == s[j] && r[i] == s[i];
      }
    }
  }

  /**
   * `insertContactInSortedArray`: insert `c` before the first element it strictly
   * precedes, or append it when there is none.
   */
  function InsertSorted(cfg: Config, s: seq<Contact>, c: Contact): (r: seq<Contact>)
    ensures |r| == |s| + 1
    ensures multiset(r) == multiset(s) + multiset{c}
    ensures Sorted(cfg, s) ==> Sorted(cfg, r)
  {
    match FirstPreceded(cfg, c, s)
    case Some(i) =>
      assert s == s[..i] + s[i..];
      InsertAtKeepsSorted(cfg, s, c, i);
      s[..i] + [c] + s[i..]
    case None =>
      assert s[..|s|] == s;
      InsertAtKeepsSorted(cfg, s, c, |s|);
      s + [c]
  }

  /** In a sorted sequence, once `c` precedes `s[k]` it precedes every later element too. */
  lemma PrecedesRest(cfg: Config, s: seq<Contact>, c: Contact, k: nat, j: nat)
    requires Sorted(cfg, s)
    requires k <= j < |s|
    requires Precedes(cfg, c, s[k])
    ensures Precedes(cfg, c, s[j])
  {
    if k < j {
      SortedPairs(cfg, s, k, j);
      if Precedes(cfg, s[k], s[j]) {
        PrecedesTransitive(cfg, c, s[k], s[j]);
      }
    }
  }

  /**
   * Where sorted insertion puts `c`: every element before it is not preceded by `c`,
   * every element after it is, so `c` lands after every element with an equal key.
   */
  lemma InsertSortedPlacement(cfg: Config, s: seq<Contact>, c: Contact)
    requires Sorted(cfg, s)
    ensures exists k ::
      && 0 <= k <= |s|
      && InsertSorted(cfg, s, c) == s[..k] + [c] + s[k..]
      && (forall j :: 0 <= j < k ==> !Precedes(cfg, c, s[j]))
      && (forall j :: k <= j < |s| ==> Precedes(cfg, c, s[j]))
      && (forall j :: 0 <= j < |s| && Key(cfg.criteria, s[j]) == Key(cfg.criteria, c) ==> j < k)
  {
    var k := match FirstPreceded(cfg, c, s) case Some(i) => i case None => |s|;
    assert s[..|s|] == s && s[|s|..] == [];
    forall j | k <= j < |s|
      ensures Precedes(cfg, c, s[j])
    {
      PrecedesRest(cfg, s, c, k, j);
    }
    forall j | 0 <= j < |s| && Key(cfg.criteria, s[j]) == Key(cfg.criteria, c)
      ensures j < k
    {
      PrecedesTies(cfg, c, s[j]);
    }
    assert InsertSorted(cfg, s, c) == s[..k] + [c] + s[k..];
  }

  /**
   * `sortContacts`: a sorted permutation of `s`. Realised here by repeated sorted
   * insertion; the contract says only what any sorting algorithm guarantees.
   */
  function SortContacts(cfg: Config, s: seq<Contact>): (r: seq<Contact>)
    ensures multiset(r) == multiset(s)
    ensures Sorted(cfg, r)
    decreases |s|
  {
    if s == [] then []
    else
      assert s == s[..|s| - 1] + [s[|s| - 1]];
      InsertSorted(cfg, SortContacts(cfg, s[..|s| - 1]), s[|s| - 1])
  }

  /** Sequences with the same multiset have the same members. */
  lemma SameMembers(a: seq<Contact>, b: seq<Contact>)
    requires multiset(a) == multiset(b)
    ensures forall x :: x in a <==> x in b
  {
    forall x
      ensures x in a <==> x in b
    {
      assert x in a <==> x in multiset(a);
      assert x in b <==> x in multiset(b);
    }
  }

  /** `removeAll { $0.id == id }`. */
  function RemoveId(s: seq<Contact>, id: string): (r: seq<Contact>)
    ensures forall i :: 0 <= i < |r| ==> r[i].id != id
    ensures forall x :: multiset(r)[x] == if x.id == id then 0 else multiset(s)[x]
    decreases |s|
  {
    if s == [] then []
    else
      assert s == [s[0]] + s[1..];
      (if s[0].id == id then [] else [s[0]]) + RemoveId(s[1..], id)
  }

  /** `f` lists, in increasing order, the positions of `b` that make up `a`. */
  ghost predicate Embedding(a: seq<Contact>, b: seq<Contact>, f: seq<nat>)
  {
    && |f| == |a|
    && (forall i :: 0 <= i < |f| ==> f[i] < |b| && a[i] == b[f[i]])
    && (forall i, j :: 0 <= i < j < |f| ==> f[i] < f[j])
  }

  /** `a` is `b` with some elements dropped and the rest in their original order. */
  ghost predicate IsSubsequence(a: seq<Contact>, b: seq<Contact>)
  {
    exists f :: Embedding(a, b, f)
  }

  function Shift(f: seq<nat>): (g: seq<nat>)
    ensures |g| == |f|
    ensures forall i :: 0 <= i < |f| ==> g[i] == f[i] + 1
  {
    seq(|f|, i requires 0 <= i < |f| => f[i] + 1)
  }

  /** Dropping the head of `b` from the embedding. */
  lemma EmbeddingSkip(a: seq<Contact>, b: seq<Contact>, f: seq<nat>)
    requires |b| > 0 && Embedding(a, b[1..], f)
    ensures Embedding(a, b, Shift(f))
  {
  }

  /** Keeping the head of `b` in the embedding. */
  lemma EmbeddingTake(a: seq<Contact>, b: seq<Contact>, f: seq<nat>)
    requires |b| > 0 && Embedding(a, b[1..], f)
    ensures Embedding([b[0]] + a, b, [0] + Shift(f))
  {
    var g := [0] + Shift(f);
    var a' := [b[0]] + a;
    forall i | 0 <= i < |g|
      ensures g[i] < |b| && a'[i] == b[g[i]]
    {
      if i > 0 {
        assert g[i] == f[i - 1] + 1 && a'[i] == a[i - 1];
      }
    }
  }

  /** Removal by id keeps the surviving entries in their relative order. */
  lemma {:induction false} RemoveIdKeepsOrder(s: seq<Contact>, id: string)
    ensures IsSubsequence(RemoveId(s, id), s)
    decreases |s|
  {
    if s == [] {
      assert Embedding([], s, []);
    } else {
      RemoveIdKeepsOrder(s[1..], id);
      var rest := RemoveId(s[1..], id);
      var f :| Embedding(rest, s[1..], f);
      if s[0].id == id {
        assert RemoveId(s, id) == rest;
        EmbeddingSkip(rest, s, f);
      } else {
        assert RemoveId(s, id) == [s[0]] + rest;
        EmbeddingTake(rest, s, f);
      }
    }
  }

  lemma SubsequenceKeepsSorted(cfg: Config, a: seq<Contact>, b: seq<Contact>)
    requires IsSubsequence(a, b)
    ensures Sorted(cfg, b) ==> Sorted(cfg, a)
  {
    var f :| Embedding(a, b, f);
    if !Sorted(cfg, b) {
      return;
    }
    forall i, j | 0 <= i < j < |a|
      ensures !Precedes(cfg, a[j], a[i])
    {
      assert a[i] == b[f[i]] && a[j] == b[f[j]] && f[i] < f[j];
    }
  }

  lemma RemoveIdKeepsSorted(cfg: Config, s: seq<Contact>, id: string)
    ensures Sorted(cfg, s) ==> Sorted(cfg, RemoveId(s, id))
  {
    RemoveIdKeepsOrder(s, id);
    SubsequenceKeepsSorted(cfg, RemoveId(s, id), s);
  }

  /** After removal the id is no longer present. */
  lemma RemoveIdDropsId(s: seq<Contact>, id: string)
    ensures id !in Ids(RemoveId(s, id))
  {
  }

  /** Removing an id that no entry carries changes nothing. */
  lemma {:induction false} RemoveAbsentId(s: seq<Contact>, id: string)
    requires forall i :: 0 <= i < |s| ==> s[i].id != id
    ensures RemoveId(s, id) == s
    decreases |s|
  {
    if s != [] {
      RemoveAbsentId(s[1..], id);
      assert s == [s[0]] + s[1..];
    }
  }

  lemma RemoveIdIdempotent(s: seq<Contact>, id: string)
    ensures RemoveId(RemoveId(s, id), id) == RemoveId(s, id)
  {
    RemoveAbsentId(RemoveId(s, id), id);
  }

  /** At most one entry per id. */
  predicate UniqueIds(s: seq<Contact>)
  {
    forall i, j :: 0 <= i < j < |s| ==> s[i].id != s[j].id
  }

  lemma SubsequenceKeepsUnique(a: seq<Contact>, b: seq<Contact>)
    requires IsSubsequence(a, b)
    ensures UniqueIds(b) ==> UniqueIds(a)
  {
    var f :| Embedding(a, b, f);
    if !UniqueIds(b) {
      return;
    }
    forall i, j | 0 <= i < j < |a|
      ensures a[i].id != a[j].id
    {
      assert a[i] == b[f[i]] && a[j] == b[f[j]] && f[i] < f[j];
    }
  }

  /** Inserting a contact whose id is new, at any position, keeps ids unique. */
  lemma InsertAtFreshKeepsUnique(s: seq<Contact>, c: Contact, k: nat)
    requires k <= |s|
    requires UniqueIds(s)
    requires c.id !in Ids(s)
    ensures UniqueIds(s[..k] + [c] + s[k..])
  {
    var r := s[..k] + [c] + s[k..];
    forall i, j | 0 <= i < j < |r|
      ensures r[i].id != r[j].id
    {
      if i == k {
        assert r[j] == s[j - 1] && r[j] in s;
      } else if j == k {
        assert r[i] == s[i] && r[i] in s;
      } else {
        var i' := if i < k then i else i - 1;
        var j' := if j < k then j else j - 1;
        assert r[i] == s[i'] && r[j] == s[j'] && i' < j';
      }
    }
  }

  /** Sorted insertion of a contact whose id is new keeps ids unique. */
  lemma InsertFreshKeepsUnique(cfg: Config, s: seq<Contact>, c: Contact)
    ensures UniqueIds(s) && c.id !in Ids(s) ==> UniqueIds(InsertSorted(cfg, s, c))
  {
    if UniqueIds(s) && c.id !in Ids(s) {
      match FirstPreceded(cfg, c, s)
      case Some(i) =>
        InsertAtFreshKeepsUnique(s, c, i);
      case None =>
        InsertAtFreshKeepsUnique(s, c, |s|);
        assert s[..|s|] + [c] + s[|s|..] == s + [c];
    }
  }

  /** How many times each contact occurs after removing `c`'s id and inserting `c`. */
  lemma ReplaceCounts(cfg: Config, s: seq<Contact>, c: Contact)
    ensures multiset(InsertSorted(cfg, RemoveId(s, c.id), c))[c] == 1
    ensures forall x: Contact :: x.id != c.id ==>
      multiset(InsertSorted(cfg, RemoveId(s, c.id), c))[x] == multiset(s)[x]
    ensures forall x :: x in InsertSorted(cfg, RemoveId(s, c.id), c) && x.id == c.id ==> x == c
  {
    var kept := RemoveId(s, c.id);
    var r := InsertSorted(cfg, kept, c);
    forall x | x in r && x.id == c.id
      ensures x == c
    {
      assert x in multiset(r);
      assert multiset(kept)[x] == 0;
    }
    forall x: Contact | x.id != c.id
      ensures multiset(r)[x] == multiset(s)[x]
    {
      assert x != c;
      assert multiset(r)[x] == multiset(kept)[x];
    }
  }

  /** Removing `c`'s id and inserting `c` keeps the order and keeps ids unique. */
  lemma ReplaceKeepsInvariants(cfg: Config, s: seq<Contact>, c: Contact)
    ensures Sorted(cfg, s) ==> Sorted(cfg, InsertSorted(cfg, RemoveId(s, c.id), c))
    ensures UniqueIds(s) ==> UniqueIds(InsertSorted(cfg, RemoveId(s, c.id), c))
  {
    var kept := RemoveId(s, c.id);
    RemoveIdKeepsSorted(cfg, s, c.id);
    RemoveIdKeepsOrder(s, c.id);
    SubsequenceKeepsUnique(kept, s);
    RemoveIdDropsId(s, c.id);
    InsertFreshKeepsUnique(cfg, kept, c);
  }

  /**
   * The collection step of `update`: remove every entry with `c`'s id, then insert `c`
   * at its sorted position. Exactly one entry with that id is left, namely `c`, and
   * every other entry is as it was.
   */
  function ReplaceById(cfg: Config, s: seq<Contact>, c: Contact): (r: seq<Contact>)
    ensures multiset(r)[c] == 1
    ensures forall x :: x in r && x.id == c.id ==> x == c
    ensures forall x: Contact :: x.id != c.id ==> multiset(r)[x] == multiset(s)[x]
    ensures Sorted(cfg, s) ==> Sorted(cfg, r)
    ensures UniqueIds(s) ==> UniqueIds(r)
  {
    ReplaceCounts(cfg, s, c);
    ReplaceKeepsInvariants(cfg, s, c);
    InsertSorted(cfg, RemoveId(s, c.id), c)
  }
}
