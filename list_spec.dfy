/** The meaning of the doubly linked list's operations on the sequence of
    elements it holds, together with the properties those meanings have.
    The heap-level list in module DoubleLinkedList is proved against the
    functions defined here. */
module ListSpec {

  /** The one error kind the list raises: std::out_of_range. */
  datatype Error = OutOfRange

  /** An operation that either yields a value or throws. */
  datatype Result<R> = Ok(value: R) | Err(error: Error)

  /** An operation that either completes or throws. */
  datatype Outcome = Pass | Fail(error: Error)

  /** Largest value of a 64-bit size_t. */
  const SIZE_MAX: nat := 0xFFFF_FFFF_FFFF_FFFF

  /** size_t subtraction `n - 1`: the result is a size_t one below n
      modulo 2^64, so it wraps around at zero. */
  function SizeDecrement(n: nat): (r: nat)
    ensures n <= SIZE_MAX ==> r <= SIZE_MAX
    ensures (r + 1) % (SIZE_MAX + 1) == n % (SIZE_MAX + 1)
  {
    if n == 0 then SIZE_MAX else n - 1
  }

  function Min(a: nat, b: nat): nat
  {
    if a <= b then a else b
  }

  // ---------------------------------------------------------------------
  // insert / remove

  /** The elements after insert(v, pos): the walk to the insertion point
      stops at the tail, so any position past the end appends. */
  function Inserted<X>(s: seq<X>, v: X, pos: nat): seq<X>
  {
    var k := Min(pos, |s|);
    s[..k] + [v] + s[k..]
  }

  /** The elements after remove(pos) of an existing position. */
  function Removed<X>(s: seq<X>, pos: nat): seq<X>
    requires pos < |s|
  {
    s[..pos] + s[pos + 1..]
  }

  /** insert(v, pos) puts v at index min(pos, |s|) and shifts what follows. */
  lemma InsertedAt<X>(s: seq<X>, v: X, pos: nat, i: nat)
    requires i <= |s|
    ensures |Inserted(s, v, pos)| == |s| + 1
    ensures Inserted(s, v, pos)[i] ==
      if i < Min(pos, |s|) then s[i]
      else if i == Min(pos, |s|) then v
      else s[i - 1]
  {
  }

  /** Removing at the insertion index undoes an insert. */
  lemma RemovedInserted<X>(s: seq<X>, v: X, pos: nat)
    ensures Min(pos, |s|) < |Inserted(s, v, pos)|
    ensures Removed(Inserted(s, v, pos), Min(pos, |s|)) == s
  {
    var k := Min(pos, |s|);
    assert Inserted(s, v, pos)[..k] == s[..k];
    assert Inserted(s, v, pos)[k + 1..] == s[k..];
  }

  /** Re-inserting a removed element at its old index undoes a remove. */
  lemma InsertedRemoved<X>(s: seq<X>, pos: nat)
    requires pos < |s|
    ensures Inserted(Removed(s, pos), s[pos], pos) == s
  {
    var r := Removed(s, pos);
    assert r[..pos] == s[..pos];
    assert r[pos..] == s[pos + 1..];
    assert s == s[..pos] + [s[pos]] + s[pos + 1..];
  }

  /** pushFront and pushBack are inserts at 0 and at size(). */
  lemma InsertedEnds<X>(s: seq<X>, v: X)
    ensures Inserted(s, v, 0) == [v] + s
    ensures Inserted(s, v, |s|) == s + [v]
  {
  }

  /** remove(pos) keeps everything before pos and shifts what follows. */
  lemma RemovedAt<X>(s: seq<X>, pos: nat, i: nat)
    requires pos < |s| && i < |s| - 1
    ensures |Removed(s, pos)| == |s| - 1
    ensures Removed(s, pos)[i] == if i < pos then s[i] else s[i + 1]
  {
  }

  // ---------------------------------------------------------------------
  // find

  /** What find(needle) returns as written: the loop stops on the node
      whose successor is null, so the last element is never compared. */
  predicate FindAsWritten<X(==)>(s: seq<X>, needle: X)
  {
    s != [] && needle in s[..|s| - 1]
  }

  /** find as written differs from membership exactly when the needle
      occurs only in the last position. */
  lemma {:induction false} FindAsWrittenVersusMembership<X>(s: seq<X>, needle: X)
    ensures FindAsWritten(s, needle) ==> needle in s
    ensures needle in s && !FindAsWritten(s, needle) <==>
      s != [] && s[|s| - 1] == needle && needle !in s[..|s| - 1]
  {
    if s != [] {
      assert s == s[..|s| - 1] + [s[|s| - 1]];
    }
  }

  /** On [2, 3] find(3) as written is false although 3 is present. */
  lemma FindMissesLastElement()
    ensures 3 in [2, 3] && !FindAsWritten([2, 3], 3)
  {
    assert [2, 3][..1] == [2];
  }

  // ---------------------------------------------------------------------
  // forEach / map

  /** The elements after forEach(fn): every element replaced by fn of it. */
  function Mapped<X>(fn: X -> X, s: seq<X>): (r: seq<X>)
    ensures |r| == |s|
  {
    if s == [] then [] else [fn(s[0])] + Mapped(fn, s[1..])
  }

  /** forEach applies fn to each element in place and in order. */
  lemma {:induction false} MappedAt<X>(fn: X -> X, s: seq<X>, i: nat)
    requires i < |s|
    ensures Mapped(fn, s)[i] == fn(s[i])
  {
    if i > 0 {
      MappedAt(fn, s[1..], i - 1);
    }
  }

  // ---------------------------------------------------------------------
  // reverse

  /** The elements in reverse order. */
  function Reversed<X>(s: seq<X>): (r: seq<X>)
    ensures |r| == |s|
  {
    if s == [] then [] else Reversed(s[1..]) + [s[0]]
  }

  /** Element k of the reverse is element |s|-1-k of the original. */
  lemma {:induction false} ReversedAt<X>(s: seq<X>, k: nat)
    requires k < |s|
    ensures Reversed(s)[k] == s[|s| - 1 - k]
  {
    if k < |s| - 1 {
      ReversedAt(s[1..], k);
    }
  }

  /** Reversing twice gives back the original: getReverseList applied
      twice yields the list it started from. */
  lemma {:induction false} ReversedReversed<X>(s: seq<X>)
    ensures Reversed(Reversed(s)) == s
  {
    forall k | 0 <= k < |s|
      ensures Reversed(Reversed(s))[k] == s[k]
    {
      ReversedAt(Reversed(s), k);
      ReversedAt(s, |s| - 1 - k);
    }
  }

  /** Reversing keeps the same elements with the same multiplicities. */
  lemma {:induction false} ReversedMultiset<X>(s: seq<X>)
    ensures multiset(Reversed(s)) == multiset(s)
  {
    if s != [] {
      ReversedMultiset(s[1..]);
      assert s == [s[0]] + s[1..];
    }
  }

  /** The elements after reverse(start, end) with start < |s| and
      start <= end: the closed range [start, end] reversed, where an end
      past the tail means the tail. */
  function ReversedRange<X>(s: seq<X>, start: nat, end: nat): seq<X>
    requires start < |s| && start <= end
  {
    var e := Min(end, |s| - 1);
    s[..start] + Reversed(s[start..e + 1]) + s[e + 1..]
  }

  /** Inside [start, e] element j comes from start + e - j; outside the
      range nothing moves. */
  lemma ReversedRangeAt<X>(s: seq<X>, start: nat, end: nat, j: nat)
    requires start < |s| && start <= end && j < |s|
    ensures |ReversedRange(s, start, end)| == |s|
    ensures ReversedRange(s, start, end)[j] ==
      var e := Min(end, |s| - 1);
      if start <= j <= e then s[start + e - j] else s[j]
  {
    var e := Min(end, |s| - 1);
    if start <= j <= e {
      ReversedAt(s[start..e + 1], j - start);
    }
  }

  /** A range covering the whole list is a full reverse. */
  lemma ReversedRangeWhole<X>(s: seq<X>, end: nat)
    requires s != [] && |s| - 1 <= end
    ensures ReversedRange(s, 0, end) == Reversed(s)
  {
    var e := Min(end, |s| - 1);
    assert e + 1 == |s|;
    assert s[..0] == [] && s[e + 1..] == [] && s[0..e + 1] == s;
    var r := Reversed(s);
    assert ReversedRange(s, 0, end) == [] + r + [];
    assert [] + r + [] == r;
  }

  /** Reversing the same range twice gives back the original. */
  lemma ReversedRangeTwice<X>(s: seq<X>, start: nat, end: nat)
    requires start < |s| && start <= end
    ensures var r := ReversedRange(s, start, end);
      |r| == |s| && ReversedRange(r, start, end) == s
  {
    var r := ReversedRange(s, start, end);
    ReversedRangeAt(s, start, end, 0);
    forall j | 0 <= j < |s|
      ensures ReversedRange(r, start, end)[j] == s[j]
    {
      var e := Min(end, |s| - 1);
      ReversedRangeAt(r, start, end, j);
      if start <= j <= e {
        ReversedRangeAt(s, start, end, start + e - j);
      } else {
        ReversedRangeAt(s, start, end, j);
      }
    }
  }

  /** Reversing a range keeps the same elements with the same multiplicities. */
  lemma ReversedRangeMultiset<X>(s: seq<X>, start: nat, end: nat)
    requires start < |s| && start <= end
    ensures multiset(ReversedRange(s, start, end)) == multiset(s)
  {
    var e := Min(end, |s| - 1);
    ReversedMultiset(s[start..e + 1]);
    assert s == s[..start] + s[start..e + 1] + s[e + 1..];
  }

  /** No element repeats. */
  predicate Distinct<X(==)>(s: seq<X>)
  {
    forall i, j :: 0 <= i < j < |s| ==> s[i] != s[j]
  }

  /** Reversing a range of distinct elements leaves them distinct. */
  lemma ReversedRangeDistinct<X>(s: seq<X>, start: nat, end: nat)
    requires start < |s| && start <= end && Distinct(s)
    ensures Distinct(ReversedRange(s, start, end))
  {
    var r := ReversedRange(s, start, end);
    forall i, j | 0 <= i < j < |r|
      ensures r[i] != r[j]
    {
      ReversedRangeAt(s, start, end, i);
      ReversedRangeAt(s, start, end, j);
    }
  }

  // ---------------------------------------------------------------------
  // filter

  /** The elements of s whose mask entry is true, in order. */
  function Select<X>(s: seq<X>, m: seq<bool>): (r: seq<X>)
    requires |m| == |s|
    ensures |r| <= |s|
  {
    if s == [] then [] else (if m[0] then [s[0]] else []) + Select(s[1..], m[1..])
  }

  /** Which nodes the second loop of filter keeps, for the nodes that
      follow a kept node: the first of them is tested; a rejected node is
      unlinked and the loop steps onto its successor, which is kept
      without being tested. */
  function KeepRest<X>(fn: X -> bool, r: seq<X>): (m: seq<bool>)
    ensures |m| == |r|
  {
    if r == [] then []
    else if fn(r[0]) then [true] + KeepRest(fn, r[1..])
    else if |r| == 1 then [false]
    else [false, true] + KeepRest(fn, r[2..])
  }

  /** Which nodes filter keeps, as written: rejected heads are dropped
      until one is accepted, then the second loop takes over. */
  function FilterMask<X>(fn: X -> bool, s: seq<X>): (m: seq<bool>)
    ensures |m| == |s|
  {
    if s == [] then []
    else if fn(s[0]) then [true] + KeepRest(fn, s[1..])
    else [false] + FilterMask(fn, s[1..])
  }

  /** The elements after filter(fn) as written. */
  function FilteredAsWritten<X>(fn: X -> bool, s: seq<X>): seq<X>
  {
    Select(s, FilterMask(fn, s))
  }

  /** The elements satisfying fn, in order: what filter is meant to keep. */
  function Filtered<X>(fn: X -> bool, s: seq<X>): seq<X>
  {
    if s == [] then [] else (if fn(s[0]) then [s[0]] else []) + Filtered(fn, s[1..])
  }

  /** Number of leading elements that fail fn. */
  function LeadRejected<X>(fn: X -> bool, s: seq<X>): (n: nat)
    ensures n <= |s|
  {
    if s == [] || fn(s[0]) then 0 else 1 + LeadRejected(fn, s[1..])
  }

  /** The leading run that LeadRejected counts really fails fn, and the
      element right after it satisfies fn. */
  lemma {:induction false} LeadRejectedAt<X>(fn: X -> bool, s: seq<X>, i: nat)
    requires i <= LeadRejected(fn, s) && i < |s|
    ensures i < LeadRejected(fn, s) ==> !fn(s[i])
    ensures i == LeadRejected(fn, s) ==> fn(s[i])
  {
    if i > 0 {
      LeadRejectedAt(fn, s[1..], i - 1);
    }
  }

  /** The second loop's mask entry by entry: the first node is tested, and
      every later node is kept outright when its predecessor was removed,
      and tested otherwise. */
  lemma {:induction false} KeepRestAt<X>(fn: X -> bool, r: seq<X>, i: nat)
    requires i < |r|
    ensures KeepRest(fn, r)[i] ==
      if i == 0 then fn(r[0]) else !KeepRest(fn, r)[i - 1] || fn(r[i])
  {
    if fn(r[0]) {
      if i > 0 {
        KeepRestAt(fn, r[1..], i - 1);
      }
    } else if |r| > 1 && i > 1 {
      KeepRestAt(fn, r[2..], i - 2);
      if i == 2 {
        assert KeepRest(fn, r)[1];
      }
    }
  }

  /** filter's mask entry by entry: the leading rejected run is removed, the
      first accepted element is kept, and after it every node is kept
      outright when its predecessor was removed, and tested otherwise. */
  lemma {:induction false} FilterMaskAt<X>(fn: X -> bool, s: seq<X>, i: nat)
    requires i < |s|
    ensures var m, l := FilterMask(fn, s), LeadRejected(fn, s);
      m[i] == if i < l then false else if i == l then true else !m[i - 1] || fn(s[i])
  {
    if fn(s[0]) {
      if i > 0 {
        KeepRestAt(fn, s[1..], i - 1);
      }
    } else if i > 0 {
      FilterMaskAt(fn, s[1..], i - 1);
    }
  }

  /** Every node filter removes failed fn: nothing accepted is dropped. */
  lemma {:induction false} FilterRemovesOnlyRejected<X>(fn: X -> bool, s: seq<X>, i: nat)
    requires i < |s| && !FilterMask(fn, s)[i]
    ensures !fn(s[i])
  {
    FilterMaskAt(fn, s, i);
    if i < LeadRejected(fn, s) {
      LeadRejectedAt(fn, s, i);
    }
  }

  /** The node after a node removed by the second loop is kept without being
      tested. */
  lemma {:induction false} FilterKeepsSuccessorOfRemoved<X>(fn: X -> bool, s: seq<X>, i: nat)
    requires LeadRejected(fn, s) < i && i + 1 < |s| && !FilterMask(fn, s)[i]
    ensures FilterMask(fn, s)[i + 1]
  {
    FilterMaskAt(fn, s, i + 1);
  }

  /** When some element is accepted, the first element left satisfies fn. */
  lemma FilterFirstAccepted<X>(fn: X -> bool, s: seq<X>)
    requires exists i :: 0 <= i < |s| && fn(s[i])
    ensures FilteredAsWritten(fn, s) != [] && fn(FilteredAsWritten(fn, s)[0])
  {
    var l := LeadRejected(fn, s);
    if l == |s| {
      var i :| 0 <= i < |s| && fn(s[i]);
      LeadRejectedAt(fn, s, i);
      assert false;
    }
    LeadRejectedAt(fn, s, l);
    FilterMaskAt(fn, s, l);
    forall i | 0 <= i < l
      ensures !FilterMask(fn, s)[i]
    {
      FilterMaskAt(fn, s, i);
    }
    SelectLeading(s, FilterMask(fn, s), l);
  }

  /** With the first l entries unselected and entry l selected, selection
      starts with s[l]. */
  lemma {:induction false} SelectLeading<X>(s: seq<X>, m: seq<bool>, l: nat)
    requires |m| == |s| && l < |s| && m[l]
    requires forall i :: 0 <= i < l ==> !m[i]
    ensures Select(s, m) != [] && Select(s, m)[0] == s[l]
  {
    if l > 0 {
      SelectLeading(s[1..], m[1..], l - 1);
    }
  }

  /** a is an order-preserving subsequence of b. */
  predicate IsSubsequence<X(==)>(a: seq<X>, b: seq<X>)
    decreases |b|
  {
    a == [] || (b != [] && ((a[0] == b[0] && IsSubsequence(a[1..], b[1..])) || IsSubsequence(a, b[1..])))
  }

  /** Selecting by a mask yields an order-preserving subsequence. */
  lemma {:induction false} SelectIsSubsequence<X>(s: seq<X>, m: seq<bool>)
    requires |m| == |s|
    ensures IsSubsequence(Select(s, m), s)
  {
    if s != [] {
      var a := Select(s[1..], m[1..]);
      SelectIsSubsequence(s[1..], m[1..]);
      if m[0] {
        assert Select(s, m) == [s[0]] + a;
        assert ([s[0]] + a)[1..] == a;
      } else {
        assert Select(s, m) == a;
      }
    }
  }

  /** Selecting with a mask that keeps less yields a subsequence of selecting
      with one that keeps more. */
  lemma {:induction false} SelectMonotone<X>(s: seq<X>, m1: seq<bool>, m2: seq<bool>)
    requires |m1| == |s| && |m2| == |s|
    requires forall i :: 0 <= i < |s| && m1[i] ==> m2[i]
    ensures IsSubsequence(Select(s, m1), Select(s, m2))
  {
    if s != [] {
      SelectMonotone(s[1..], m1[1..], m2[1..]);
      var a, b := Select(s[1..], m1[1..]), Select(s[1..], m2[1..]);
      if m1[0] {
        assert Select(s, m1) == [s[0]] + a && Select(s, m2) == [s[0]] + b;
        assert ([s[0]] + a)[1..] == a && ([s[0]] + b)[1..] == b;
      } else if m2[0] {
        assert Select(s, m1) == a && Select(s, m2) == [s[0]] + b;
        SubsequenceSkipHead(a, s[0], b);
      } else {
        assert Select(s, m1) == a && Select(s, m2) == b;
      }
    }
  }

  /** Prepending an element to the longer sequence keeps a subsequence. */
  lemma SubsequenceSkipHead<X>(a: seq<X>, x: X, b: seq<X>)
    requires IsSubsequence(a, b)
    ensures IsSubsequence(a, [x] + b)
  {
    assert ([x] + b)[1..] == b;
  }

  /** The mask that keeps exactly the elements satisfying fn. */
  function Tests<X>(fn: X -> bool, s: seq<X>): (m: seq<bool>)
    ensures |m| == |s|
  {
    if s == [] then [] else [fn(s[0])] + Tests(fn, s[1..])
  }

  lemma {:induction false} TestsAt<X>(fn: X -> bool, s: seq<X>, i: nat)
    requires i < |s|
    ensures Tests(fn, s)[i] == fn(s[i])
  {
    if i > 0 {
      TestsAt(fn, s[1..], i - 1);
    }
  }

  /** Filtering keeps exactly the elements the tests mask selects. */
  lemma {:induction false} FilteredIsSelect<X>(fn: X -> bool, s: seq<X>)
    ensures Filtered(fn, s) == Select(s, Tests(fn, s))
  {
    if s != [] {
      FilteredIsSelect(fn, s[1..]);
    }
  }

  /** The result of filter as written is an order-preserving subsequence of
      the original, and every element satisfying fn survives it in order. */
  lemma FilterAsWrittenBounds<X>(fn: X -> bool, s: seq<X>)
    ensures IsSubsequence(FilteredAsWritten(fn, s), s)
    ensures IsSubsequence(Filtered(fn, s), FilteredAsWritten(fn, s))
  {
    SelectIsSubsequence(s, FilterMask(fn, s));
    FilteredIsSelect(fn, s);
    forall i | 0 <= i < |s| && Tests(fn, s)[i]
      ensures FilterMask(fn, s)[i]
    {
      TestsAt(fn, s, i);
      if !FilterMask(fn, s)[i] {
        FilterRemovesOnlyRejected(fn, s, i);
      }
    }
    SelectMonotone(s, Tests(fn, s), FilterMask(fn, s));
  }

  /** No two adjacent elements both fail fn. */
  ghost predicate NoAdjacentRejects<X>(fn: X -> bool, s: seq<X>)
  {
    forall i, j :: 0 <= i && j == i + 1 && j < |s| ==> fn(s[i]) || fn(s[j])
  }

  /** When no two adjacent elements both fail fn, the untested successor
      never matters and filter as written keeps exactly what it should. */
  lemma FilterAsWrittenExact<X>(fn: X -> bool, s: seq<X>)
    requires NoAdjacentRejects(fn, s)
    ensures FilteredAsWritten(fn, s) == Filtered(fn, s)
  {
    var m, t := FilterMask(fn, s), Tests(fn, s);
    forall i | 0 <= i < |s|
      ensures m[i] == t[i]
    {
      MaskMatchesTests(fn, s, i);
      TestsAt(fn, s, i);
    }
    assert m == t;
    FilteredIsSelect(fn, s);
  }

  lemma {:induction false} MaskMatchesTests<X>(fn: X -> bool, s: seq<X>, i: nat)
    requires NoAdjacentRejects(fn, s)
    requires i < |s|
    ensures FilterMask(fn, s)[i] == fn(s[i])
    decreases i
  {
    var l := LeadRejected(fn, s);
    FilterMaskAt(fn, s, i);
    if i <= l {
      LeadRejectedAt(fn, s, i);
    } else {
      MaskMatchesTests(fn, s, i - 1);
    }
  }

  function IsEven(x: int): bool
  {
    x % 2 == 0
  }

  /** Keeping the even values of [2, 1, 3] keeps the odd 3: it follows the
      removed 1 and is never tested. */
  lemma FilterKeepsUntestedOdd()
    ensures FilteredAsWritten(IsEven, [2, 1, 3]) == [2, 3]
    ensures Filtered(IsEven, [2, 1, 3]) == [2]
  {
    var s := [2, 1, 3];
    assert s[1..] == [1, 3] && s[1..][2..] == [];
    assert KeepRest(IsEven, s[1..]) == [false, true];
    assert FilterMask(IsEven, s) == [true, false, true];
    assert Select(s[1..][1..], [true]) == [3];
    assert Select(s[1..], [false, true]) == [3];
    assert Filtered(IsEven, s[1..][1..]) == [];
    assert Filtered(IsEven, s[1..]) == [];
  }

  /** Filtering [2, 3] again removes the 3, so filter as written is not
      idempotent. */
  lemma FilterNotIdempotent()
    ensures FilteredAsWritten(IsEven, [2, 3]) == [2]
    ensures FilteredAsWritten(IsEven, FilteredAsWritten(IsEven, [2, 1, 3]))
         != FilteredAsWritten(IsEven, [2, 1, 3])
  {
    FilterKeepsUntestedOdd();
    var s := [2, 3];
    assert s[1..] == [3];
    assert FilterMask(IsEven, s) == [true, false];
    assert Select(s[1..], [false]) == [];
    assert FilteredAsWritten(IsEven, s) == [2];
  }

  /** Keeping the even values of [1, 2, 3, 4] leaves [2, 4], the same as the
      corrected filter, while the cached size is left at 4 (filter never
      updates it). */
  lemma FilterEvenOfFirstFour()
    ensures FilteredAsWritten(IsEven, [1, 2, 3, 4]) == Filtered(IsEven, [1, 2, 3, 4]) == [2, 4]
  {
    var s := [1, 2, 3, 4];
    assert s[1..] == [2, 3, 4] && s[1..][1..] == [3, 4] && s[1..][1..][2..] == [];
    assert KeepRest(IsEven, s[1..][1..]) == [false, true];
    assert FilterMask(IsEven, s) == [false, true, false, true];
    assert Select(s[1..][1..][1..], [true]) == [4];
    assert Select(s[1..][1..], [false, true]) == [4];
    assert Select(s[1..], [true, false, true]) == [2, 4];
    assert Filtered(IsEven, s[1..][1..][1..]) == [4];
    assert Filtered(IsEven, s[1..][1..]) == [4];
  }

  // The steps of filter's walks, stated on the sequence the list holds
  // when the walk stands on s[k] and has kept s[..k + 1].

  /** What filter as written ends with, seen from a walk standing on s[k]. */
  function KeptFrom<X>(fn: X -> bool, s: seq<X>, k: nat): seq<X>
    requires k < |s|
  {
    s[..k + 1] + Select(s[k + 1..], KeepRest(fn, s[k + 1..]))
  }

  /** What the corrected filter ends with, seen from a walk standing on
      s[k]. */
  function FilteredFrom<X>(fn: X -> bool, s: seq<X>, k: nat): seq<X>
    requires k < |s|
  {
    s[..k + 1] + Filtered(fn, s[k + 1..])
  }

  /** The walk of filter as written stands on the last node: nothing is
      left to drop. */
  lemma KeptFromLast<X>(fn: X -> bool, s: seq<X>, k: nat)
    requires k + 1 == |s|
    ensures KeptFrom(fn, s, k) == s
  {
    assert s[..k + 1] == s;
  }

  /** The second loop meets an accepted node: it is kept and the walk moves
      onto it. */
  lemma KeepRestAccepted<X>(fn: X -> bool, s: seq<X>, k: nat)
    requires k + 1 < |s| && fn(s[k + 1])
    ensures KeptFrom(fn, s, k) == KeptFrom(fn, s, k + 1)
  {
    assert s[k + 1..][1..] == s[k + 2..];
    assert s[..k + 2] == s[..k + 1] + [s[k + 1]];
  }

  /** The second loop meets a rejected node: once it is removed, the walk
      moves onto its successor, which it keeps untested. */
  lemma KeepRestRejected<X>(fn: X -> bool, s: seq<X>, k: nat)
    requires k + 2 < |s| && !fn(s[k + 1])
    ensures KeptFrom(fn, s, k) == KeptFrom(fn, Removed(s, k + 1), k + 1)
  {
    var r := s[k + 1..];
    var m := KeepRest(fn, s[k + 3..]);
    var t := Removed(s, k + 1);
    assert r[2..] == s[k + 3..] && r[1..][1..] == s[k + 3..];
    assert KeepRest(fn, r) == [false, true] + m;
    assert ([false, true] + m)[1..] == [true] + m && ([true] + m)[1..] == m;
    assert Select(r[1..], [true] + m) == [s[k + 2]] + Select(s[k + 3..], m);
    assert Select(r, KeepRest(fn, r)) == [s[k + 2]] + Select(s[k + 3..], m);
    assert t[..k + 2] == s[..k + 1] + [s[k + 2]];
    assert t[k + 2..] == s[k + 3..];
  }

  /** The second loop meets a rejected last node: removing it ends the
      walk. */
  lemma KeepRestRejectedLast<X>(fn: X -> bool, s: seq<X>, k: nat)
    requires k + 2 == |s| && !fn(s[k + 1])
    ensures KeptFrom(fn, s, k) == Removed(s, k + 1)
  {
    assert s[k + 1..] == [s[k + 1]];
    assert Removed(s, k + 1) == s[..k + 1];
  }

  /** The corrected walk stands on the last node: the rest is done. */
  lemma FilteredFromLast<X>(fn: X -> bool, s: seq<X>, k: nat)
    requires k + 1 == |s|
    ensures FilteredFrom(fn, s, k) == s
  {
    assert s[..k + 1] == s;
  }

  /** The corrected filter meets a rejected node past s[k]: removing it
      leaves the outcome unchanged and the walk stays on s[k]. */
  lemma FilteredRejected<X>(fn: X -> bool, s: seq<X>, k: nat)
    requires k + 1 < |s| && !fn(s[k + 1])
    ensures FilteredFrom(fn, s, k) == FilteredFrom(fn, Removed(s, k + 1), k)
  {
    assert s[k + 1..][1..] == s[k + 2..];
    assert Removed(s, k + 1)[..k + 1] == s[..k + 1];
    assert Removed(s, k + 1)[k + 1..] == s[k + 2..];
  }

  /** The corrected filter meets an accepted node past s[k]: it is kept and
      the walk moves onto it. */
  lemma FilteredAccepted<X>(fn: X -> bool, s: seq<X>, k: nat)
    requires k + 1 < |s| && fn(s[k + 1])
    ensures FilteredFrom(fn, s, k) == FilteredFrom(fn, s, k + 1)
  {
    assert s[k + 1..][1..] == s[k + 2..];
    assert s[..k + 2] == s[..k + 1] + [s[k + 1]];
  }
}
