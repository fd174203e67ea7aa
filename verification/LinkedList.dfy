/** The intrusive circular doubly linked list of linked_list.h.

A list is a ring of `ListHead` links: one link is the head, the others sit inside the structures that
the list carries.  `Ring(r)` says that following `next` from `r[0]` reads `r` and comes back, and that
following `prev` reads `r` backwards.  `r[0]` is the head wherever an operation speaks of a head.

Every operation is the source's own sequence of pointer writes.  Its contract says which ring (or rings)
it leaves, as a function of the rings it was given, and its `modifies` clause names the individual
pointer fields it may write: any list that does not own one of these fields is left as it was.
The ghost parameters only tell the contract which ring is meant.  */
module LinkedList {
  import opened Sequences

  class ListHead {
    var next: ListHead?
    var prev: ListHead?
    /** The structure this link is a member of (null for a free-standing head), and which member it is. */
    var container: object?
    const member: nat

    constructor (member: nat)
      ensures this.member == member && container == null && next == null && prev == null
    {
      this.member, container, next, prev := member, null, null, null;
    }
  }

  function After<T>(r: seq<T>, i: nat): T
    requires i < |r|
  {
    if i + 1 < |r| then r[i + 1] else r[0]
  }

  function Before<T>(r: seq<T>, i: nat): T
    requires i < |r|
  {
    if i > 0 then r[i - 1] else r[|r| - 1]
  }

  ghost predicate Ring(r: seq<ListHead>)
    reads r
  {
    && r != []
    && Distinct(r)
    && (forall i {:trigger r[i].next} | 0 <= i < |r| :: r[i].next == After(r, i))
    && (forall i {:trigger r[i].prev} | 0 <= i < |r| :: r[i].prev == Before(r, i))
  }

  /** What a ring is, link by link: all different, and each points at the one behind it and the one in front of it, the
      last one and the first one at each other. */
  lemma RingIff(r: seq<ListHead>)
    ensures Ring(r) <==>
              && 0 < |r| && (forall i, j | 0 <= i < j < |r| :: r[i] != r[j])
              && (forall i {:trigger r[i].next} | 0 <= i < |r| :: r[i].next == if i + 1 < |r| then r[i + 1] else r[0])
              && (forall i {:trigger r[i].prev} | 0 <= i < |r| :: r[i].prev == if i > 0 then r[i - 1] else r[|r| - 1])
  {
  }

  /** Position `k` of `r` and the one behind it point at each other. */
  ghost predicate LinkedAt(r: seq<ListHead>, k: nat)
    requires k < |r|
    reads r
  {
    r[k].next == After(r, k) && After(r, k).prev == r[k]
  }

  lemma RingLink(r: seq<ListHead>, k: nat)
    requires Ring(r) && k < |r|
    ensures LinkedAt(r, k) && r[k].prev == Before(r, k) && r[k].next in r && r[k].prev in r
  {
    assert After(r, k).prev == Before(r, if k + 1 < |r| then k + 1 else 0);
  }

  lemma RingFromLinks(r: seq<ListHead>)
    requires r != [] && Distinct(r) && forall k | 0 <= k < |r| :: LinkedAt(r, k)
    ensures Ring(r)
  {
    forall k | 0 <= k < |r| ensures r[k].prev == Before(r, k) {
      assert LinkedAt(r, if k > 0 then k - 1 else |r| - 1);
    }
    forall k | 0 <= k < |r| ensures r[k].next == After(r, k) {
      assert LinkedAt(r, k);
    }
  }

  lemma RingLinks(r: seq<ListHead>)
    requires Ring(r)
    ensures Distinct(r) && forall k | 0 <= k < |r| :: LinkedAt(r, k)
  {
    forall k | 0 <= k < |r| ensures LinkedAt(r, k) {
      RingLink(r, k);
    }
  }

  /** Links at different positions share no end. */
  lemma LinksApart<T>(r: seq<T>, m: nat, n: nat)
    requires Distinct(r) && m < |r| && n < |r| && m != n
    ensures r[m] != r[n] && After(r, m) != After(r, n)
  {
  }

  lemma NeighbourApart(r: seq<ListHead>, i: nat)
    requires Ring(r) && |r| > 1 && i < |r|
    ensures r[i] != After(r, i) && r[i] != Before(r, i)
  {
  }

  /** The head and the pointers leave no choice of what the list is. */
  lemma {:induction false} RingUnique(r: seq<ListHead>, s: seq<ListHead>)
    requires Ring(r) && Ring(s) && r[0] == s[0]
    ensures r == s
  {
    var k := 0;
    while k + 1 < |r| && k + 1 < |s|
      invariant k < |r| && k < |s| && forall i | 0 <= i <= k :: r[i] == s[i]
    {
      RingLink(r, k);
      RingLink(s, k);
      k := k + 1;
    }
    RingLink(r, k);
    RingLink(s, k);
  }

  /** The head followed by the items in the order in which `prev` visits them. */
  function ReadBackwards<T>(r: seq<T>): (t: seq<T>)
    requires r != []
    ensures |t| == |r|
  {
    seq(|r|, i requires 0 <= i < |r| => if i == 0 then r[0] else r[|r| - i])
  }

  /** Reading the list by `prev` gives its items in reverse, and reading that by `next` reverses it again. */
  lemma BackwardsIsReverse(r: seq<ListHead>, i: nat)
    requires Ring(r) && i < |r|
    ensures var t := ReadBackwards(r); t[i].prev == After(t, i) && t[i].next == Before(t, i)
    ensures ReadBackwards(ReadBackwards(r)) == r
  {
    RingLink(r, if i == 0 then 0 else |r| - i);
  }

  lemma RingOfOne(x: ListHead)
    requires x.next == x && x.prev == x
    ensures Ring([x])
  {
  }

  twostate lemma RingKept(r: seq<ListHead>)
    requires old(Ring(r)) && forall n | n in r :: n.next == old(n.next) && n.prev == old(n.prev)
    ensures Ring(r)
  {
  }

  lemma InsertedLinks<T>(s: seq<T>, i: nat, x: T, k: nat)
    requires Distinct(s) && x !in s && 0 < i <= |s| && k <= |s|
    ensures var t := Inserted(s, i, x);
            && Distinct(t) && |t| == |s| + 1
            && (k < i - 1 ==> t[k] == s[k] && After(t, k) == After(s, k))
            && (k == i - 1 ==> t[k] == s[k] && After(t, k) == x)
            && (k == i ==> t[k] == x && After(t, k) == After(s, i - 1))
            && (k > i ==> t[k] == s[k - 1] && After(t, k) == After(s, k - 1))
  {
  }

  lemma ReplacedApart<T>(s: seq<T>, i: nat, x: T)
    requires Distinct(s) && i < |s| && x !in s
    ensures s[i] !in s[i := x]
  {
  }

  method InitListHead(list: ListHead)
    modifies list`next, list`prev
    ensures Ring([list])
  {
    list.next := list;
    list.prev := list;
  }

  method ListAddBetween(newItem: ListHead, prev: ListHead, next: ListHead, ghost r: seq<ListHead>, ghost i: nat)
    requires Ring(r) && i < |r| && newItem !in r
    requires prev == r[i] && next == After(r, i)
    modifies newItem`next, newItem`prev, prev`next, next`prev
    ensures Ring(Inserted(r, i + 1, newItem))
  {
    RingLinks(r);
    next.prev := newItem;
    newItem.next := next;
    newItem.prev := prev;
    prev.next := newItem;

    ghost var t := Inserted(r, i + 1, newItem);
    forall k | 0 <= k < |t| ensures LinkedAt(t, k) {
      InsertedLinks(r, i + 1, newItem, k);
      if k != i && k != i + 1 {
        ghost var m := if k < i then k else k - 1;
        assert old(LinkedAt(r, m));
        LinksApart(r, m, i);
      }
    }
    InsertedLinks(r, i + 1, newItem, 0);
    RingFromLinks(t);
  }

  method ListAdd(newItem: ListHead, head: ListHead, ghost r: seq<ListHead>, ghost i: nat)
    requires Ring(r) && i < |r| && head == r[i] && newItem !in r
    modifies newItem`next, newItem`prev, head`next, head.next`prev
    ensures Ring(Inserted(r, i + 1, newItem))
  {
    RingLink(r, i);
    ListAddBetween(newItem, head, head.next, r, i);
  }

  /** `head` may be any link of the ring: the new item goes right before it. */
  method ListAddTail(newItem: ListHead, head: ListHead, ghost r: seq<ListHead>, ghost i: nat)
    requires Ring(r) && i < |r| && head == r[i] && newItem !in r
    modifies newItem`next, newItem`prev, head`prev, head.prev`next
    ensures Ring(Inserted(r, if i == 0 then |r| else i, newItem))
  {
    RingLink(r, i);
    ListAddBetween(newItem, head.prev, head, r, if i == 0 then |r| - 1 else i - 1);
  }

  lemma RemovedLinks<T>(s: seq<T>, i: nat, k: nat)
    requires Distinct(s) && |s| > 1 && i < |s| && k < |s| - 1
    ensures var t, m := Removed(s, i), if k < i then k else k + 1;
            && Distinct(t) && |t| == |s| - 1 && s[i] !in t && t[k] == s[m]
            && After(t, k) == if m == (if i > 0 then i - 1 else |s| - 1) then After(s, i) else After(s, m)
  {
  }

  method ListDelBetween(prev: ListHead, next: ListHead, ghost r: seq<ListHead>, ghost i: nat)
    requires Ring(r) && i < |r|
    requires prev == Before(r, i) && next == After(r, i)
    modifies prev`next, next`prev
    ensures |r| > 1 ==> Ring(Removed(r, i))
    ensures |r| == 1 ==> Ring(r)
    ensures prev.next == next && next.prev == prev
  {
    RingLinks(r);
    next.prev := prev;
    prev.next := next;

    if |r| == 1 {
      RingOfOne(r[0]);
      assert r == [r[0]];
    } else {
      ghost var t := Removed(r, i);
      ghost var p := if i > 0 then i - 1 else |r| - 1;
      forall k | 0 <= k < |t| ensures LinkedAt(t, k) {
        RemovedLinks(r, i, k);
        ghost var m := if k < i then k else k + 1;
        if m != p {
          assert old(LinkedAt(r, m));
          LinksApart(r, m, p);
          LinksApart(r, m, i);
        }
      }
      RemovedLinks(r, i, 0);
      RingFromLinks(t);
    }
  }

  method ListDelEntry(entry: ListHead, ghost r: seq<ListHead>, ghost i: nat)
    requires Ring(r) && i < |r| && entry == r[i]
    modifies entry.prev`next, entry.next`prev
    ensures |r| > 1 ==> Ring(Removed(r, i))
    ensures |r| == 1 ==> Ring(r)
    ensures old(entry.prev).next == old(entry.next) && old(entry.next).prev == old(entry.prev)
  {
    RingLink(r, i);
    ListDelBetween(entry.prev, entry.next, r, i);
  }

  /** A link that is alone on its ring may be deleted too; then only its own pointers change. */
  method ListDel(entry: ListHead, ghost r: seq<ListHead>, ghost i: nat)
    requires Ring(r) && i < |r| && entry == r[i]
    modifies entry`next, entry`prev, entry.prev`next, entry.next`prev
    ensures |r| > 1 ==> Ring(Removed(r, i))
    ensures |r| > 1 ==> old(entry.prev).next == old(entry.next) && old(entry.next).prev == old(entry.prev)
    ensures entry.next == null && entry.prev == null
  {
    RingLink(r, i);
    RingLinks(r);
    if |r| > 1 {
      RemovedLinks(r, i, 0);
      NeighbourApart(r, i);
    }
    ListDelEntry(entry, r, i);
    label Unlinked:
    entry.next := null;
    entry.prev := null;
    if |r| > 1 {
      RingKept@Unlinked(Removed(r, i));
    }
  }

  method ListDelInit(entry: ListHead, ghost r: seq<ListHead>, ghost i: nat)
    requires Ring(r) && i < |r| && entry == r[i]
    modifies entry`next, entry`prev, entry.prev`next, entry.next`prev
    ensures |r| > 1 ==> Ring(Removed(r, i))
    ensures Ring([entry])
  {
    RingLinks(r);
    ListDelEntry(entry, r, i);
    label Unlinked:
    InitListHead(entry);
    if |r| > 1 {
      RemovedLinks(r, i, 0);
      RingKept@Unlinked(Removed(r, i));
    }
  }

  lemma ReplacedLinks<T>(s: seq<T>, i: nat, x: T, k: nat)
    requires Distinct(s) && i < |s| && k < |s| && x !in s
    ensures var t, p := s[i := x], if i > 0 then i - 1 else |s| - 1;
            && Distinct(t)
            && t[k] == (if k == i then x else s[k])
            && After(t, k) == (if k == p then x else After(s, k))
  {
  }

  /** The new link takes the old one's place; when the old link was an empty head, the new one is. */
  method ListReplace(old_: ListHead, newItem: ListHead, ghost r: seq<ListHead>, ghost i: nat)
    requires Ring(r) && i < |r| && old_ == r[i] && newItem !in r
    modifies newItem`next, newItem`prev, old_.next`prev, old_.prev`next
    ensures Ring(r[i := newItem])
  {
    RingLink(r, i);
    RingLinks(r);
    newItem.next := old_.next;
    newItem.next.prev := newItem;
    newItem.prev := old_.prev;
    newItem.prev.next := newItem;

    ghost var t := r[i := newItem];
    ghost var p := if i > 0 then i - 1 else |r| - 1;
    forall k | 0 <= k < |t| ensures LinkedAt(t, k) {
      ReplacedLinks(r, i, newItem, k);
      if k != p && k != i {
        assert old(LinkedAt(r, k));
        LinksApart(r, k, p);
        LinksApart(r, k, i);
      }
    }
    ReplacedLinks(r, i, newItem, 0);
    RingFromLinks(t);
  }

  method ListReplaceInit(old_: ListHead, newItem: ListHead, ghost r: seq<ListHead>, ghost i: nat)
    requires Ring(r) && i < |r| && old_ == r[i] && newItem !in r
    modifies newItem`next, newItem`prev, old_.next`prev, old_.prev`next, old_`next, old_`prev
    ensures Ring(r[i := newItem]) && Ring([old_])
  {
    RingLinks(r);
    ListReplace(old_, newItem, r, i);
    label Replaced:
    InitListHead(old_);
    ReplacedApart(r, i, newItem);
    RingKept@Replaced(r[i := newItem]);
  }

  /** A ring may be read from any of its links. */
  function Rotated<T>(s: seq<T>, k: nat): (t: seq<T>)
    requires k <= |s|
  {
    s[k..] + s[..k]
  }

  lemma RotatedLinks<T>(s: seq<T>, k: nat, n: nat)
    requires Distinct(s) && k <= |s| && n < |s|
    ensures var t, m := Rotated(s, k), if n < |s| - k then k + n else k + n - |s|;
            Distinct(t) && |t| == |s| && t[n] == s[m] && After(t, n) == After(s, m)
  {
  }

  lemma RingRotated(r: seq<ListHead>, k: nat)
    requires Ring(r) && k <= |r|
    ensures Ring(Rotated(r, k))
  {
    RingLinks(r);
    ghost var t := Rotated(r, k);
    forall n | 0 <= n < |t| ensures LinkedAt(t, n) {
      RotatedLinks(r, k, n);
      RingLink(r, if n < |r| - k then k + n else k + n - |r|);
    }
    RotatedLinks(r, k, 0);
    RingFromLinks(t);
  }

  ghost predicate Disjoint<T>(r: seq<T>, s: seq<T>) {
    forall i, j | 0 <= i < |r| && 0 <= j < |s| :: r[i] != s[j]
  }

  /** The ring during a swap: the second entry has taken the first one's place, the first is out. */
  function HalfSwapped<T>(s: seq<T>, i: nat, j: nat): (t: seq<T>)
    requires i < |s| && j < |s| && i != j
    ensures |t| == |s| - 1
  {
    Removed(s, j)[if i < j then i else i - 1 := s[j]]
  }

  lemma HalfSwappedAt<T>(s: seq<T>, i: nat, j: nat, k: nat)
    requires i < |s| && j < |s| && i != j && k < |s| - 1
    ensures var m := if k < j then k else k + 1;
            HalfSwapped(s, i, j)[k] == if m == i then s[j] else s[m]
  {
  }

  lemma HalfSwappedBefore<T>(s: seq<T>, i: nat, j: nat)
    requires Distinct(s) && i < |s| && j < |s| && i != j
    ensures var k := if j == 0 then |s| - 2 else j - 1;
            && HalfSwapped(s, i, j)[k] == (if Before(s, j) == s[i] then s[j] else Before(s, j))
            && After(HalfSwapped(s, i, j), k) == (if After(s, j) == s[i] then s[j] else After(s, j))
  {
    var k := if j == 0 then |s| - 2 else j - 1;
    HalfSwappedAt(s, i, j, k);
    HalfSwappedAt(s, i, j, if k + 1 < |s| - 1 then k + 1 else 0);
  }

  lemma HalfSwappedDistinct<T>(s: seq<T>, i: nat, j: nat)
    requires Distinct(s) && i < |s| && j < |s| && i != j
    ensures Distinct(HalfSwapped(s, i, j)) && s[i] !in HalfSwapped(s, i, j)
  {
    RemovedLinks(s, j, 0);
    var r1, i1 := Removed(s, j), if i < j then i else i - 1;
    RemovedLinks(s, j, i1);
    ReplacedLinks(r1, i1, s[j], 0);
    ReplacedApart(r1, i1, s[j]);
  }

  lemma SwapCompleted<T>(s: seq<T>, i: nat, j: nat)
    requires i < |s| && j < |s| && i != j
    ensures j > 0 ==> Inserted(HalfSwapped(s, i, j), j, s[i]) == s[i := s[j]][j := s[i]]
  {
    if j > 0 {
      var t, u := Inserted(HalfSwapped(s, i, j), j, s[i]), s[i := s[j]][j := s[i]];
      forall k | 0 <= k < |s| ensures t[k] == u[k] {
        if k != j {
          HalfSwappedAt(s, i, j, if k < j then k else k - 1);
        }
      }
    }
  }

  lemma SwapWithHeadCompleted<T>(s: seq<T>, i: nat)
    requires 0 < i < |s|
    ensures Rotated(Inserted(HalfSwapped(s, i, 0), |s| - 1, s[i]), |s| - 1) == s[i := s[0]][0 := s[i]]
  {
    var t, u := HalfSwapped(s, i, 0) + [s[i]], s[i := s[0]][0 := s[i]];
    assert Inserted(HalfSwapped(s, i, 0), |s| - 1, s[i]) == t;
    forall k | 0 <= k < |s| ensures ([s[i]] + t[..|s| - 1])[k] == u[k] {
      if k > 0 {
        HalfSwappedAt(s, i, 0, k - 1);
      }
    }
  }

  lemma DisjointParts<T>(r: seq<T>, s: seq<T>, j: nat)
    requires Disjoint(r, s) && Distinct(s) && j < |s|
    ensures s[j] !in r && forall n | n in s :: n !in r
    ensures forall n | n in Removed(s, j) :: n !in r && n != s[j]
  {
  }

  /** The gap left at position `j` is behind the item that was in front of it. */
  lemma RemovedGap<T>(s: seq<T>, j: nat)
    requires Distinct(s) && 1 < |s| && j < |s|
    ensures var k := if j == 0 then |s| - 2 else j - 1;
            Removed(s, j)[k] == Before(s, j) && After(Removed(s, j), k) == After(s, j)
  {
  }

  lemma GapFilled<T>(s: seq<T>, j: nat, x: T)
    requires 1 < |s| && j < |s|
    ensures j > 0 ==> Inserted(Removed(s, j), j, x) == s[j := x]
    ensures j == 0 ==> Rotated(Inserted(Removed(s, 0), |s| - 1, x), |s| - 1) == s[0 := x]
  {
  }

  lemma HalfSwappedIs<T>(s: seq<T>, i: nat, j: nat)
    requires i < |s| && j < |s| && i != j
    ensures |Removed(s, j)| == |s| - 1 && HalfSwapped(s, i, j) == Removed(s, j)[if i < j then i else i - 1 := s[j]]
  {
  }

  /** What a swap does, step by step: `r1` is the ring on which the first entry is replaced, at `i1`; `s2` is the ring
      to which it is then added, behind position `k`; `t` is what it leaves there, read from the old head. */
  lemma SwapPlan<T>(r: seq<T>, i: nat, s: seq<T>, j: nat)
    returns (r1: seq<T>, i1: nat, s2: seq<T>, k: nat, t: seq<T>)
    requires Distinct(r) && Distinct(s) && i < |r| && j < |s| && r[i] != s[j] && (r == s || Disjoint(r, s))
    ensures i1 < |r1| && r1[i1] == r[i] && s[j] !in r1
    ensures k < |s2| && r[i] !in s2
    ensures s2[k] == (if Before(s, j) == r[i] then s[j] else Before(s, j))
    ensures var next := if |s| > 1 then After(s, j) else After(r, i);
      After(s2, k) == if next == r[i] then s[j] else next
    ensures |s| == 1 ==> k + 1 < |t| && [t[k + 1]] == s[j := r[i]]
    ensures r == s ==> r1 == Removed(s, j)
    ensures r == s || |s| == 1 ==> s2 == r1[i1 := s[j]]
    ensures r != s ==> r1 == r && (forall n | n in s :: n !in r) && r[i] !in r[i := s[j]]
    ensures r != s && |s| > 1 ==> s2 == Removed(s, j)
    ensures r != s && |s| > 1 ==> forall n | n in s2 :: n !in r && n != s[j] && n !in r[i := s[j]]
    ensures t == if j > 0 || |s| == 1 then Inserted(s2, k + 1, r[i]) else Rotated(Inserted(s2, k + 1, r[i]), k + 1)
    ensures t == if r == s then r[i := s[j]][j := r[i]] else if |s| > 1 then s[j := r[i]]
                 else Inserted(r[i := s[j]], i + 1, r[i])
  {
    hide Removed, Inserted, Rotated, Disjoint, HalfSwapped;
    if |s| == 1 {
      DisjointParts(r, s, j);
      ReplacedApart(r, i, s[j]);
      r1, i1, s2, k := r, i, r[i := s[j]], i;
      t := Inserted(s2, k + 1, r[i]);
      InsertedAt(s2, k + 1, r[i], k + 1);
    } else {
      k := if j == 0 then |s| - 2 else j - 1;
      RemovedGap(s, j);
      if r == s {
        r1, i1, s2 := Removed(r, j), if i > j then i - 1 else i, HalfSwapped(r, i, j);
        RemovedLinks(r, j, i1);
        HalfSwappedIs(r, i, j);
        HalfSwappedDistinct(r, i, j);
        HalfSwappedBefore(r, i, j);
        SwapCompleted(r, i, j);
        if j == 0 {
          SwapWithHeadCompleted(r, i);
        }
      } else {
        r1, i1, s2 := r, i, Removed(s, j);
        DisjointParts(r, s, j);
        GapFilled(s, j, r[i]);
        ReplacedApart(r, i, s[j]);
      }
      t := if j > 0 then Inserted(s2, k + 1, r[i]) else Rotated(Inserted(s2, k + 1, r[i]), k + 1);
    }
  }

  /** Two entries trade places, on one ring or between two; on one ring they may be neighbours in either order, and
      either may be the head.  This is so exactly if the second entry is not alone on its ring: otherwise it takes the
      first one's place, and the first one goes right behind it. */
  method ListSwap(entry1: ListHead, entry2: ListHead,
                  ghost r: seq<ListHead>, ghost i: nat, ghost s: seq<ListHead>, ghost j: nat)
    requires Ring(r) && Ring(s) && i < |r| && j < |s| && entry1 == r[i] && entry2 == s[j] && entry1 != entry2
    requires r == s || Disjoint(r, s)
    modifies entry1`next, entry1`prev, entry1.next`prev, entry1.prev`next
    modifies entry2`next, entry2`prev, entry2.next`prev, entry2.prev`next
    ensures r == s ==> Ring(r[i := entry2][j := entry1])
    ensures r != s ==> (|s| > 1 <==> Ring(r[i := entry2]) && Ring(s[j := entry1]))
    ensures |s| == 1 ==> Ring(Inserted(r[i := entry2], i + 1, entry1))
  {
    hide Ring, Removed, Inserted, Rotated, Disjoint, Before, After, LinkedAt;
    RingNeighbours(r, i);
    RingNeighbours(s, j);
    ghost var r1, i1, s2, k, t := SwapPlan(r, i, s, j);

    var pos := entry2.prev;
    ListDel(entry2, s, j);
    if r != s {
      RingKept(r);
    }
    RingNeighbours(r1, i1);
    label Taken:
    ListReplace(entry1, entry2, r1, i1);
    if pos == entry1 {
      pos := entry2;
    }
    if r != s && |s| > 1 {
      RingKept@Taken(s2);
    }
    RingNeighbours(s2, k);
    label Replaced:
    ListAdd(entry1, pos, s2, k);
    if |s| == 1 {
      NotAlone(t, k + 1, s[j := entry1]);
    } else {
      if r != s {
        RingKept@Replaced(r[i := entry2]);
      }
      if j == 0 {
        RingRotated(Inserted(s2, k + 1, entry1), k + 1);
      }
    }
  }

  /** A link that has a neighbour is no ring of its own. */
  lemma NotAlone(t: seq<ListHead>, k: nat, alone: seq<ListHead>)
    requires Ring(t) && |t| > 1 && k < |t| && alone == [t[k]]
    ensures !Ring(alone)
  {
    NeighbourApart(t, k);
    RingLink(t, k);
    assert alone[0].next != alone[0];
  }

  lemma RingNeighbours(r: seq<ListHead>, k: nat)
    requires Ring(r) && k < |r|
    ensures Distinct(r) && r[k].next == After(r, k) && r[k].prev == Before(r, k)
    ensures r[k].next in r && r[k].prev in r
  {
    RingLink(r, k);
  }

  lemma MovedLinks<T>(s: seq<T>, i: nat, j: nat)
    requires Distinct(s) && i < |s| && j < |s| && i != j
    ensures var t, k := Removed(s, i), if i < j then j - 1 else j;
            && s[i] !in t && t[k] == s[j]
            && After(t, k) == (if After(s, j) == s[i] then After(s, i) else After(s, j))
            && Before(t, k) == (if Before(s, j) == s[i] then Before(s, i) else Before(s, j))
  {
  }

  lemma RemovedApart<T>(r: seq<T>, i: nat, s: seq<T>)
    requires Distinct(r) && Disjoint(r, s) && i < |r|
    ensures forall n | n in Removed(r, i) :: n != r[i] && n !in s
  {
  }

  /** Where `s[i]`, taken out, goes back in right behind the item at position `j`. */
  function MovedBehind<T>(s: seq<T>, i: nat, j: nat): (t: seq<T>)
    requires i < |s| && j < |s| && i != j
  {
    Inserted(Removed(s, i), if i < j then j else j + 1, s[i])
  }

  /** As above, right in front of position `j`; in front of the head means at the end. */
  function MovedBefore<T>(s: seq<T>, i: nat, j: nat): (t: seq<T>)
    requires i < |s| && j < |s| && i != j
  {
    var k := if i < j then j - 1 else j;
    Inserted(Removed(s, i), if k == 0 then |s| - 1 else k, s[i])
  }

  /** Both moves, position by position: the item stands at position p, and all others keep their order around it. */
  lemma MovedAt<T>(s: seq<T>, i: nat, j: nat, k: nat)
    requires i < |s| && j < |s| && i != j && k < |s|
    ensures |MovedBehind(s, i, j)| == |s| == |MovedBefore(s, i, j)|
    ensures var p := if i < j then j else j + 1;
      var n := if k < p then k else k - 1;
      MovedBehind(s, i, j)[k] == if k == p then s[i] else s[if n < i then n else n + 1]
    ensures var p := if i < j then (if j > 1 then j - 1 else |s| - 1) else (if j > 0 then j else |s| - 1);
      var n := if k < p then k else k - 1;
      MovedBefore(s, i, j)[k] == if k == p then s[i] else s[if n < i then n else n + 1]
  {
  }

  lemma DisjointIff<T>(r: seq<T>, s: seq<T>)
    ensures Disjoint(r, s) <==> forall x | x in r :: x !in s
  {
    if Disjoint(r, s) {
      forall x | x in r ensures x !in s {
        var i :| 0 <= i < |r| && r[i] == x;
        assert forall j | 0 <= j < |s| :: s[j] != r[i];
      }
    }
    if forall x | x in r :: x !in s {
      assert forall i, j | 0 <= i < |r| && 0 <= j < |s| :: r[i] in r && s[j] in s;
    }
  }

  /** `head` may be any link, on the same ring or on another one. */
  method ListMove(list: ListHead, head: ListHead,
                  ghost r: seq<ListHead>, ghost i: nat, ghost s: seq<ListHead>, ghost j: nat)
    requires Ring(r) && Ring(s) && i < |r| && j < |s| && list == r[i] && head == s[j] && list != head
    requires r == s || Disjoint(r, s)
    modifies list`next, list`prev, list.next`prev, list.prev`next, head`next, head.next`prev
    ensures r == s ==> Ring(MovedBehind(r, i, j))
    ensures r != s ==> Ring(Inserted(s, j + 1, list))
    ensures r != s && |r| > 1 ==> Ring(Removed(r, i))
  {
    hide Ring, Removed, Inserted;
    RingLink(r, i);
    RingLink(s, j);
    RingLinks(r);
    ghost var t, k := if r == s then Removed(r, i) else s, if r == s && i < j then j - 1 else j;
    if r == s {
      MovedLinks(r, i, j);
    } else {
      RemovedApart(r, i, s);
    }
    ListDelEntry(list, r, i);
    RingLink(t, k);
    label Unlinked:
    ListAdd(list, head, t, k);
    if r != s && |r| > 1 {
      RingKept@Unlinked(Removed(r, i));
    }
  }

  method ListMoveTail(list: ListHead, head: ListHead,
                      ghost r: seq<ListHead>, ghost i: nat, ghost s: seq<ListHead>, ghost j: nat)
    requires Ring(r) && Ring(s) && i < |r| && j < |s| && list == r[i] && head == s[j] && list != head
    requires r == s || Disjoint(r, s)
    modifies list`next, list`prev, list.next`prev, list.prev`next, head`prev, head.prev`next
    ensures r == s ==> Ring(MovedBefore(r, i, j))
    ensures r != s ==> Ring(Inserted(s, if j == 0 then |s| else j, list))
    ensures r != s && |r| > 1 ==> Ring(Removed(r, i))
  {
    hide Ring, Removed, Inserted;
    RingLink(r, i);
    RingLink(s, j);
    RingLinks(r);
    ghost var t, k := if r == s then Removed(r, i) else s, if r == s && i < j then j - 1 else j;
    if r == s {
      MovedLinks(r, i, j);
    } else {
      RemovedApart(r, i, s);
    }
    ListDelEntry(list, r, i);
    RingLink(t, k);
    label Unlinked:
    ListAddTail(list, head, t, k);
    if r != s && |r| > 1 {
      RingKept@Unlinked(Removed(r, i));
    }
  }

  /** The items at positions `i` to `j` go to the end in their order. */
  function BulkMoved<T>(s: seq<T>, i: nat, j: nat): (t: seq<T>)
    requires i <= j < |s|
    ensures |t| == |s|
  {
    s[..i] + s[j + 1..] + s[i..j + 1]
  }

  lemma BulkMovedLinks<T>(s: seq<T>, i: nat, j: nat, k: nat)
    requires Distinct(s) && 1 <= i <= j < |s| && k < |s|
    ensures var t, left := BulkMoved(s, i, j), |s| - j - 1;
            var m := if k < i then k else if k < i + left then k + j + 1 - i else k - left;
            && Distinct(t) && t[k] == s[m]
            && After(t, k) == (if m == j then s[0]
                               else if m == (if left > 0 then |s| - 1 else i - 1) then s[i]
                               else if m == i - 1 then s[j + 1]
                               else After(s, m))
  {
  }

  method ListBulkMoveTail(head: ListHead, first: ListHead, last: ListHead,
                          ghost r: seq<ListHead>, ghost i: nat, ghost j: nat)
    requires Ring(r) && 1 <= i <= j < |r| && head == r[0] && first == r[i] && last == r[j]
    modifies first.prev`next, last.next`prev, head.prev`next, first`prev, last`next, head`prev
    ensures Ring(BulkMoved(r, i, j))
  {
    RingLinks(r);
    RingLink(r, i);
    RingLink(r, j);
    RingLink(r, 0);
    first.prev.next := last.next;
    last.next.prev := first.prev;

    head.prev.next := first;
    first.prev := head.prev;

    last.next := head;
    head.prev := last;

    ghost var t, left := BulkMoved(r, i, j), |r| - j - 1;
    forall k | 0 <= k < |t| ensures LinkedAt(t, k) {
      BulkMovedLinks(r, i, j, k);
      ghost var m := if k < i then k else if k < i + left then k + j + 1 - i else k - left;
      if m != i - 1 && m != j && m != |r| - 1 {
        assert old(LinkedAt(r, m));
        LinksApart(r, m, i - 1);
        LinksApart(r, m, j);
        LinksApart(r, m, |r| - 1);
      }
    }
    BulkMovedLinks(r, i, j, 0);
    RingFromLinks(t);
  }

  predicate ListEmpty(head: ListHead)
    reads head`next
  {
    head.next == head
  }

  predicate ListIsFirst(list: ListHead, head: ListHead)
    reads list`prev
  {
    list.prev == head
  }

  predicate ListIsLast(list: ListHead, head: ListHead)
    reads list`next
  {
    list.next == head
  }

  predicate ListIsSingular(head: ListHead)
    reads head`next, head`prev
  {
    !ListEmpty(head) && head.next == head.prev
  }

  /** What the four read-only tests tell about the items `r[1..]` of the list with head `r[0]`. */
  lemma ListTests(r: seq<ListHead>, i: nat)
    requires Ring(r) && i < |r|
    ensures ListEmpty(r[0]) <==> |r| == 1
    ensures ListIsSingular(r[0]) <==> |r| == 2
    ensures i > 0 ==> (ListIsFirst(r[i], r[0]) <==> i == 1)
    ensures i > 0 ==> (ListIsLast(r[i], r[0]) <==> i == |r| - 1)
  {
    RingLink(r, 0);
    RingLink(r, i);
  }

  function RotatedLeft<T>(s: seq<T>): (t: seq<T>) {
    if s == [] then [] else s[1..] + [s[0]]
  }

  function RotatedLeftTimes<T>(s: seq<T>, n: nat): (t: seq<T>) {
    if n == 0 then s else RotatedLeft(RotatedLeftTimes(s, n - 1))
  }

  lemma {:induction false} RotatedLeftTimesIsRotated<T>(s: seq<T>, k: nat)
    requires k <= |s|
    ensures RotatedLeftTimes(s, k) == Rotated(s, k)
  {
    if k > 0 {
      RotatedLeftTimesIsRotated(s, k - 1);
      assert Rotated(s, k - 1)[1..] + [s[k - 1]] == Rotated(s, k);
    }
  }

  /** As many left rotations as there are items bring the list back. */
  lemma FullRotation<T>(s: seq<T>)
    ensures RotatedLeftTimes(s, |s|) == s
  {
    RotatedLeftTimesIsRotated(s, |s|);
  }

  method ListRotateLeft(head: ListHead, ghost r: seq<ListHead>)
    requires Ring(r) && head == r[0]
    modifies r`next, r`prev
    ensures Ring([head] + RotatedLeft(r[1..]))
    ensures if |r| > 1 then Ring([head] + r[2..] + [r[1]]) else Ring([head])
  {
    if |r| > 1 {
      assert [head] + RotatedLeft(r[1..]) == [head] + r[2..] + [r[1]];
    } else {
      assert [head] + RotatedLeft(r[1..]) == [head];
    }
    ListTests(r, 0);
    RingLink(r, 0);
    if !ListEmpty(head) {
      var first := head.next;
      RingLink(r, 1);
      RingLink(r, |r| - 1);
      ListMoveTail(first, head, r, 1, r, 0);
      assert MovedBefore(r, 1, 0) == [head] + RotatedLeft(r[1..]);
    } else {
      assert r == [head] + RotatedLeft(r[1..]);
    }
  }

  /** The head is taken out of the ring and put back right in front of `list`, the item at index `k`. */
  method ListRotateToFront(list: ListHead, head: ListHead, ghost r: seq<ListHead>, ghost k: nat)
    requires Ring(r) && k + 1 < |r| && head == r[0] && list == r[k + 1]
    modifies head`next, head`prev, head.next`prev, head.prev`next, list`prev, list.prev`next
    ensures Ring([head] + RotatedLeftTimes(r[1..], k))
    ensures Ring([head] + r[k + 1..] + r[1..k + 1])
  {
    RotatedLeftTimesIsRotated(r[1..], k);
    assert [head] + Rotated(r[1..], k) == [head] + r[k + 1..] + r[1..k + 1];
    ListMoveTail(head, list, r, 0, r, k + 1);
    ghost var t, at := MovedBefore(r, 0, k + 1), if k == 0 then |r| - 1 else k;
    RingRotated(t, at);
    RotatedLeftTimesIsRotated(r[1..], k);
    RotatedToFront(r, k);
  }

  lemma RotatedAtHead<T>(a: seq<T>, h: T, b: seq<T>)
    ensures Rotated(a + [h] + b, |a|) == [h] + (b + a)
  {
    assert (a + [h] + b)[|a|..] == [h] + b && (a + [h] + b)[..|a|] == a;
  }

  lemma RotatedToFront<T>(r: seq<T>, k: nat)
    requires k + 1 < |r|
    ensures var t, at := MovedBefore(r, 0, k + 1), if k == 0 then |r| - 1 else k;
            |t| == |r| && Rotated(t, at) == [r[0]] + Rotated(r[1..], k)
  {
    var xs, at := r[1..], if k == 0 then |r| - 1 else k;
    assert Removed(r, 0) == xs;
    RotatedAtHead(xs[..at], r[0], xs[at..]);
    assert k == 0 ==> xs[at..] + xs[..at] == Rotated(xs, k);
  }

  /** The two lists a cut leaves: the first `k` items behind `list`, the others behind the old head. */
  function CutOff<T>(r: seq<T>, list: T, k: nat): (a: seq<T>)
    requires k < |r|
    ensures |a| == k + 1
  {
    [list] + r[1..k + 1]
  }

  function CutRest<T>(r: seq<T>, k: nat): (b: seq<T>)
    requires k < |r|
    ensures |b| == |r| - k
  {
    [r[0]] + r[k + 1..]
  }

  lemma CutLinks<T>(r: seq<T>, list: T, k: nat, n: nat)
    requires Distinct(r) && list !in r && 1 <= k < |r|
    ensures var a := CutOff(r, list, k);
            && Distinct(a)
            && (n <= k ==> a[n] == (if n == 0 then list else r[n])
                           && After(a, n) == (if n == k then list else r[n + 1]))
    ensures var b := CutRest(r, k);
            && Distinct(b)
            && (n < |b| ==> b[n] == (if n == 0 then r[0] else r[k + n]) && After(b, n) == After(r, k + n))
  {
  }

  lemma CutRings(r: seq<ListHead>, list: ListHead, k: nat)
    requires Distinct(r) && list !in r && 1 <= k < |r|
    requires list.next == r[1] && r[1].prev == list && list.prev == r[k] && r[k].next == list
    requires r[0].next == After(r, k) && After(r, k).prev == r[0]
    requires forall m | 1 <= m < |r| && m != k :: LinkedAt(r, m)
    ensures Ring(CutOff(r, list, k)) && Ring(CutRest(r, k))
  {
    forall n | 0 <= n <= k ensures LinkedAt(CutOff(r, list, k), n) {
      CutLinks(r, list, k, n);
      assert 0 < n < k ==> LinkedAt(r, n);
    }
    forall n | 0 <= n < |r| - k ensures LinkedAt(CutRest(r, k), n) {
      CutLinks(r, list, k, n);
      assert n > 0 ==> LinkedAt(r, k + n);
    }
    CutLinks(r, list, k, 0);
    RingFromLinks(CutOff(r, list, k));
    RingFromLinks(CutRest(r, k));
  }

  method CutPosition(list: ListHead, head: ListHead, entry: ListHead, ghost r: seq<ListHead>, ghost k: nat)
    requires Ring(r) && head == r[0] && 1 <= k < |r| && entry == r[k] && list !in r
    modifies list`next, list`prev, head`next, head.next`prev, entry`next, entry.next`prev
    ensures Ring(CutOff(r, list, k)) && Ring(CutRest(r, k))
  {
    RingLinks(r);
    RingLink(r, 0);
    RingLink(r, k);
    var newFirst := entry.next;
    list.next := head.next;
    list.next.prev := list;
    list.prev := entry;
    entry.next := list;
    head.next := newFirst;
    newFirst.prev := head;

    forall m | 1 <= m < |r| && m != k ensures LinkedAt(r, m) {
      assert old(LinkedAt(r, m));
      LinksApart(r, m, 0);
      LinksApart(r, m, k);
    }
    LinksApart(r, 0, k);
    CutRings(r, list, k);
  }

  /** `entry` is the `k`-th item, or the head itself for `k == 0`; the first `k` items move to `list`.
      An empty list is left as it is, and so is `list` then; nor does anything happen when the list
      has one item and `entry` is not on it. */
  method ListCutPosition(list: ListHead, head: ListHead, entry: ListHead, ghost r: seq<ListHead>, ghost k: nat)
    requires Ring(r) && head == r[0] && list !in r && k < |r|
    requires entry == r[k] || (|r| == 2 && entry !in r)
    modifies list`next, list`prev, head`next, head.next`prev, entry`next, After<ListHead>(r, k)`prev
    ensures |r| > 1 && entry == r[k] ==> Ring(CutOff(r, list, k)) && Ring(CutRest(r, k))
    ensures |r| > 1 && entry == r[k] ==> Ring([list] + r[1..k + 1]) && Ring([r[0]] + r[k + 1..])
    ensures |r| == 1 || entry != r[k] ==>
              Ring(r) && list.next == old(list.next) && list.prev == old(list.prev)
  {
    ListTests(r, 0);
    RingLink(r, 0);
    RingLink(r, k);
    if ListEmpty(head) {
      return;
    }
    if ListIsSingular(head) && head.next != entry && head != entry {
      return;
    }
    if entry == head {
      InitListHead(list);
      assert CutOff(r, list, 0) == [list] && CutRest(r, 0) == r;
    } else {
      CutPosition(list, head, entry, r, k);
    }
  }

  /** `entry` is the link behind the first `k` items (the head when that is all of them); those items move
      to `list`, which is initialised even when there are none. */
  method ListCutBefore(list: ListHead, head: ListHead, entry: ListHead, ghost r: seq<ListHead>, ghost k: nat)
    requires Ring(r) && head == r[0] && list !in r && k < |r| && entry == After(r, k)
    modifies list`next, list`prev, head`next, head.next`prev, entry`prev, entry.prev`next
    ensures Ring(CutOff(r, list, k)) && Ring(CutRest(r, k))
    ensures Ring([list] + r[1..k + 1]) && Ring([r[0]] + r[k + 1..])
  {
    RingLinks(r);
    RingLink(r, 0);
    RingLink(r, k);
    if k > 0 {
      LinksApart(r, 0, k);
    }
    if head.next == entry {
      InitListHead(list);
      assert CutOff(r, list, 0) == [list] && CutRest(r, 0) == r;
      return;
    }
    list.next := head.next;
    list.next.prev := list;
    list.prev := entry.prev;
    list.prev.next := list;
    head.next := entry;
    entry.prev := head;

    forall m | 1 <= m < |r| && m != k ensures LinkedAt(r, m) {
      assert old(LinkedAt(r, m));
      LinksApart(r, m, 0);
      LinksApart(r, m, k);
    }
    CutRings(r, list, k);
  }

  /** The items of the ring `s`, without its head, put in behind position `i` of `r`. */
  function Spliced<T>(r: seq<T>, i: nat, s: seq<T>): (t: seq<T>)
    requires i < |r| && s != []
    ensures |t| == |r| + |s| - 1
  {
    r[..i + 1] + s[1..] + r[i + 1..]
  }

  lemma SplicedLinks<T>(r: seq<T>, i: nat, s: seq<T>, k: nat)
    requires Distinct(r) && Distinct(s) && Disjoint(r, s) && i < |r| && 1 < |s| && k < |r| + |s| - 1
    ensures var t, last := Spliced(r, i, s), i + |s| - 1;
            && Distinct(t)
            && t[k] == (if k <= i then r[k] else if k <= last then s[k - i] else r[k + 1 - |s|])
            && After(t, k) == (if k < i then r[k + 1] else if k < last then s[k - i + 1]
                               else if k == last then After(r, i) else After(r, k + 1 - |s|))
  {
  }

  /** Links of disjoint rings share no end. */
  lemma RingsApart<T>(r: seq<T>, m: nat, s: seq<T>, n: nat)
    requires Disjoint(r, s) && m < |r| && n < |s|
    ensures r[m] != s[n] && After(r, m) != After(s, n)
  {
  }

  /** Puts the items of the ring `s` between `prev` and `next`; the head `s[0]` itself keeps its stale pointers. */
  method ListSpliceBetween(list: ListHead, prev: ListHead, next: ListHead,
                           ghost s: seq<ListHead>, ghost r: seq<ListHead>, ghost i: nat)
    requires Ring(r) && Ring(s) && Disjoint(r, s) && i < |r| && |s| > 1 && list == s[0]
    requires prev == r[i] && next == After(r, i)
    modifies list.next`prev, list.prev`next, prev`next, next`prev
    ensures Ring(Spliced(r, i, s))
  {
    RingLinks(r);
    RingLinks(s);
    RingLink(s, 0);
    ghost var l := |s| - 1;
    var first := list.next;
    var last := list.prev;

    first.prev := prev;
    prev.next := first;

    last.next := next;
    next.prev := last;

    ghost var t := Spliced(r, i, s);
    forall k | 0 <= k < |t| ensures LinkedAt(t, k) {
      SplicedLinks(r, i, s, k);
      if k < i || k > i + l {
        ghost var m := if k < i then k else k - l;
        assert old(LinkedAt(r, m));
        LinksApart(r, m, i);
        RingsApart(r, m, s, 0);
        RingsApart(r, m, s, l);
      } else if i < k < i + l {
        assert old(LinkedAt(s, k - i));
        LinksApart(s, k - i, 0);
        LinksApart(s, k - i, l);
        RingsApart(r, i, s, k - i);
      } else {
        RingsApart(r, i, s, l);
        RingsApart(r, i, s, 0);
      }
    }
    SplicedLinks(r, i, s, 0);
    RingFromLinks(t);
  }

  lemma SplicedNothing<T>(r: seq<T>, i: nat, s: seq<T>)
    requires i < |r| && |s| == 1
    ensures Spliced(r, i, s) == r
  {
  }

  /** `head` may be any link of its ring: the items go in right behind it, or right before it. */
  method ListSplice(list: ListHead, head: ListHead, ghost s: seq<ListHead>, ghost r: seq<ListHead>, ghost i: nat)
    requires Ring(r) && Ring(s) && Disjoint(r, s) && i < |r| && list == s[0] && head == r[i]
    modifies list.next`prev, list.prev`next, head`next, head.next`prev
    ensures Ring(Spliced(r, i, s))
    ensures |s| == 1 ==> Ring(s)
  {
    ListTests(s, 0);
    RingLink(r, i);
    if !ListEmpty(list) {
      ListSpliceBetween(list, head, head.next, s, r, i);
    } else {
      SplicedNothing(r, i, s);
    }
  }

  method ListSpliceTail(list: ListHead, head: ListHead, ghost s: seq<ListHead>, ghost r: seq<ListHead>, ghost i: nat)
    requires Ring(r) && Ring(s) && Disjoint(r, s) && i < |r| && list == s[0] && head == r[i]
    modifies list.next`prev, list.prev`next, head`prev, head.prev`next
    ensures Ring(Spliced(r, if i == 0 then |r| - 1 else i - 1, s))
    ensures |s| == 1 ==> Ring(s)
  {
    ListTests(s, 0);
    RingLink(r, i);
    ghost var k := if i == 0 then |r| - 1 else i - 1;
    if !ListEmpty(list) {
      ListSpliceBetween(list, head.prev, head, s, r, k);
    } else {
      SplicedNothing(r, k, s);
    }
  }

  method ListSpliceInit(list: ListHead, head: ListHead, ghost s: seq<ListHead>, ghost r: seq<ListHead>, ghost i: nat)
    requires Ring(r) && Ring(s) && Disjoint(r, s) && i < |r| && list == s[0] && head == r[i]
    modifies list`next, list`prev, list.next`prev, list.prev`next, head`next, head.next`prev
    ensures Ring(Spliced(r, i, s)) && Ring([list])
  {
    ListTests(s, 0);
    RingLink(r, i);
    if !ListEmpty(list) {
      RingLinks(r);
      RingLinks(s);
      SplicedApart(r, i, s);
      ListSpliceBetween(list, head, head.next, s, r, i);
      label Joined:
      InitListHead(list);
      RingKept@Joined(Spliced(r, i, s));
    } else {
      SplicedNothing(r, i, s);
      assert s == [list];
    }
  }

  lemma SplicedApart<T>(r: seq<T>, i: nat, s: seq<T>)
    requires Distinct(s) && Disjoint(r, s) && i < |r| && 1 < |s|
    ensures s[0] !in Spliced(r, i, s)
  {
  }

  method ListSpliceTailInit(list: ListHead, head: ListHead,
                            ghost s: seq<ListHead>, ghost r: seq<ListHead>, ghost i: nat)
    requires Ring(r) && Ring(s) && Disjoint(r, s) && i < |r| && list == s[0] && head == r[i]
    modifies list`next, list`prev, list.next`prev, list.prev`next, head`prev, head.prev`next
    ensures Ring(Spliced(r, if i == 0 then |r| - 1 else i - 1, s)) && Ring([list])
  {
    ListTests(s, 0);
    RingLink(r, i);
    ghost var k := if i == 0 then |r| - 1 else i - 1;
    if !ListEmpty(list) {
      RingLinks(r);
      RingLinks(s);
      SplicedApart(r, k, s);
      ListSpliceBetween(list, head.prev, head, s, r, k);
      label Joined:
      InitListHead(list);
      RingKept@Joined(Spliced(r, k, s));
    } else {
      SplicedNothing(r, k, s);
      assert s == [list];
    }
  }

  lemma CutThenSpliced<T>(r: seq<T>, list: T, k: nat)
    requires k < |r| && list !in r && Distinct(r)
    ensures Spliced(CutRest(r, k), 0, CutOff(r, list, k)) == r
    ensures Disjoint(CutRest(r, k), CutOff(r, list, k))
  {
  }

  /** Cutting at any point into an empty list and splicing the two parts back restores both lists. */
  method CutAndRejoin(list: ListHead, head: ListHead, entry: ListHead, ghost r: seq<ListHead>, ghost k: nat)
    requires Ring(r) && Ring([list]) && head == r[0] && list !in r && k < |r| && entry == r[k]
    modifies list`next, list`prev, r`next, r`prev
    ensures Ring(r) && Ring([list])
  {
    RingLinks(r);
    RingLink(r, 0);
    RingLink(r, k);
    ListCutPosition(list, head, entry, r, k);
    ghost var a, b := CutOff(r, list, k), CutRest(r, k);
    CutThenSpliced(r, list, k);
    assert |r| == 1 ==> a == [list] && b == r;
    RingLink(a, 0);
    RingLink(b, 0);
    ListSpliceInit(list, head, a, b, 0);
  }
}
