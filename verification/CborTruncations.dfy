/** What the decoder makes of items of which only the first octets are there. */
module CborTruncations {
  import opened Basics
  import opened Cbor

  // ----- truncated lists

  ghost function Zeros(n: nat): (z: seq<Leaf>)
    ensures |z| == n
  {
    if n == 0 then [] else [Unsigned(8, 0)] + Zeros(n - 1)
  }

  lemma PastTheEnd(s: Octets, i: nat)
    requires s != [] && i >= |s|
    ensures Item(s, i) == Parsed(Some([Unsigned(8, 0)]), i + 1)
  {
  }

  lemma {:induction false} ZerosPastTheEnd(s: Octets, i: nat, n: nat)
    requires s != [] && i >= |s|
    ensures Items(s, i, n) == Parsed(Some(Zeros(n)), i + n)
    decreases n
  {
    if n != 0 {
      PastTheEnd(s, i);
      ZerosPastTheEnd(s, i + 1, n - 1);
    }
  }

  /** Counted items can be read in two runs. */
  lemma {:induction false} ItemsSplit(s: Octets, i: nat, m: nat, n: nat)
    requires Items(s, i, m).leaves.Some? && Items(s, Items(s, i, m).next, n).leaves.Some?
    ensures var first := Items(s, i, m); var second := Items(s, first.next, n);
      Items(s, i, m + n) == Parsed(Some(first.leaves.value + second.leaves.value), second.next)
    decreases m
  {
    var first := Items(s, i, m);
    var second := Items(s, first.next, n);
    if m == 0 {
      assert [] + second.leaves.value == second.leaves.value;
    } else {
      var head := Item(s, i);
      var rest := Items(s, head.next, m - 1);
      ItemsSplit(s, head.next, m - 1, n);
      Associative(head.leaves.value, rest.leaves.value, second.leaves.value);
    }
  }

  lemma ItemsPad(s: Octets, i: nat, ts: seq<Tree>, n: nat)
    requires (forall k :: 0 <= k < |ts| ==> WellFormed(ts[k])) && Stands(s, i, EncodeAll(ts)) && s != []
    requires i + |EncodeAll(ts)| == |s| && |ts| <= n
    ensures Items(s, i, n) == Parsed(Some(LeavesAll(ts) + Zeros(n - |ts|)), |s| + n - |ts|)
  {
    var m := n - |ts|;
    ItemsRead(s, i, ts);
    ZerosPastTheEnd(s, |s|, m);
    ItemsSplit(s, i, |ts|, m);
    assert |ts| + m == n;
  }

  /** A list that is cut off between two items is not refused: the missing items are read as zeros,
      and more octets are reported as consumed than there are.  All positions that are read can be
      represented. */
  lemma TruncatedListPads(w: nat, n: nat, ts: seq<Tree>)
    requires (forall k :: 0 <= k < |ts| ==> WellFormed(ts[k])) && Fits(w, n) && |ts| < n < P32
    requires 1 + w + |EncodeAll(ts)| + n - |ts| <= P31
    ensures var s := Head(4, w, n) + EncodeAll(ts);
      Item(s, 0) == Parsed(Some(LeavesAll(ts) + Zeros(n - |ts|)), |s| + n - |ts|)
  {
    var h, e := Head(4, w, n), EncodeAll(ts);
    var s := h + e;
    assert s[0..|s|] == s;
    StandsSplit(s, 0, h, e);
    ItemsPad(s, 1 + w, ts, n);
    ListReads(s, 0, w, n, Items(s, 1 + w, n));
  }

  // ----- truncated input

  /** Of an item only the first k octets are there.  Is it cut where the reader notices?  Not if nothing is
      there, nor between two items of a list. */
  ghost predicate CutInside(t: Tree, k: nat)
    requires WellFormed(t) && k <= |Encode(t)|
    decreases t, 0
  {
    0 < k < |Encode(t)| && (t.List? && k >= 1 + t.width ==> CutInsideOne(t.items, k - 1 - t.width))
  }

  ghost predicate CutInsideOne(ts: seq<Tree>, k: nat)
    requires (forall i :: 0 <= i < |ts| ==> WellFormed(ts[i])) && k <= |EncodeAll(ts)|
    decreases ts, 1
  {
    if ts == [] then false
    else
      var n := |Encode(ts[0])|;
      if k < n then CutInside(ts[0], k) else CutInsideOne(ts[1..], k - n)
  }

  /** What comes of reading, at position i, an item of which only the first k octets are there. */
  ghost function CutResult(t: Tree, k: nat, i: nat): Parsed
    requires WellFormed(t) && k <= |Encode(t)|
    decreases t, 0
  {
    if k == |Encode(t)| then Parsed(Some(Leaves(t)), i + k)
    else if k == 0 then Parsed(Some([Unsigned(8, 0)]), i + 1)
    else if !t.List? || k < 1 + t.width then Parsed(None, i)
    else
      var r := CutResults(t.items, k - 1 - t.width, i + 1 + t.width);
      if r.leaves.None? then Parsed(None, i) else r
  }

  ghost function CutResults(ts: seq<Tree>, k: nat, i: nat): Parsed
    requires (forall j :: 0 <= j < |ts| ==> WellFormed(ts[j])) && k <= |EncodeAll(ts)|
    decreases ts, 1
  {
    if ts == [] then Parsed(Some([]), i)
    else
      var n := |Encode(ts[0])|;
      var head := if k < n then CutResult(ts[0], k, i) else Parsed(Some(Leaves(ts[0])), i + n);
      After(head, CutResults(ts[1..], if k < n then 0 else k - n, head.next), i)
  }

  /** Two results as one, of reading at position i. */
  function After(head: Parsed, rest: Parsed, i: nat): Parsed {
    if head.leaves.None? || rest.leaves.None? then Parsed(None, i)
    else Parsed(Some(head.leaves.value + rest.leaves.value), rest.next)
  }

  /** Nothing comes of it exactly if the item is cut inside; and no more octets are taken for read than
      the whole item has, nor fewer than are there. */
  lemma {:induction false} CutResultExact(t: Tree, k: nat, i: nat)
    requires WellFormed(t) && k <= |Encode(t)|
    ensures var r := CutResult(t, k, i);
      if CutInside(t, k) then r == Parsed(None, i)
      else r.leaves.Some? && r.leaves.value != [] && i + k <= r.next <= i + |Encode(t)|
    decreases t, 0
  {
    if t.List? && 1 + t.width <= k < |Encode(t)| {
      var j, l := i + 1 + t.width, k - 1 - t.width;
      CutResultsExact(t.items, l, j);
      CutListExact(t, k, i);
    } else {
      HasLeaves(t);
    }
  }

  lemma CutListExact(t: Tree, k: nat, i: nat)
    requires WellFormed(t) && t.List? && 1 + t.width <= k < |Encode(t)|
    requires var j, l := i + 1 + t.width, k - 1 - t.width; var r := CutResults(t.items, l, j);
      if CutInsideOne(t.items, l) then r == Parsed(None, j)
      else r.leaves.Some? && r.leaves.value != [] && j + l <= r.next <= j + |EncodeAll(t.items)|
    ensures var r := CutResult(t, k, i);
      if CutInside(t, k) then r == Parsed(None, i)
      else r.leaves.Some? && r.leaves.value != [] && i + k <= r.next <= i + |Encode(t)|
  {
    CutInsideList(t, k);
    CutResultOfList(t, k, i, CutResults(t.items, k - 1 - t.width, i + 1 + t.width));
  }

  lemma CutInsideList(t: Tree, k: nat)
    requires WellFormed(t) && t.List? && 1 + t.width <= k < |Encode(t)|
    ensures |Encode(t)| == 1 + t.width + |EncodeAll(t.items)|
    ensures CutInside(t, k) <==> CutInsideOne(t.items, k - 1 - t.width)
  {
  }

  lemma CutResultOfList(t: Tree, k: nat, i: nat, r: Parsed)
    requires WellFormed(t) && t.List? && 1 + t.width <= k < |Encode(t)|
    requires r == CutResults(t.items, k - 1 - t.width, i + 1 + t.width)
    ensures CutResult(t, k, i) == if r.leaves.None? then Parsed(None, i) else r
  {
  }

  lemma {:induction false} CutResultsExact(ts: seq<Tree>, k: nat, i: nat)
    requires (forall j :: 0 <= j < |ts| ==> WellFormed(ts[j])) && k <= |EncodeAll(ts)|
    ensures var r := CutResults(ts, k, i);
      if CutInsideOne(ts, k) then r == Parsed(None, i)
      else r.leaves.Some? && (ts != [] ==> r.leaves.value != []) && i + k <= r.next <= i + |EncodeAll(ts)|
    decreases ts, 1
  {
    if ts != [] {
      var n := |Encode(ts[0])|;
      HasLeaves(ts[0]);
      if k < n {
        CutResultExact(ts[0], k, i);
        CutResultsExact(ts[1..], 0, CutResult(ts[0], k, i).next);
        NothingIsNotCut(ts[1..]);
      } else {
        CutResultsExact(ts[1..], k - n, i + n);
      }
    }
  }

  lemma NothingIsNotCut(ts: seq<Tree>)
    requires forall i :: 0 <= i < |ts| ==> WellFormed(ts[i])
    ensures !CutInsideOne(ts, 0)
  {
  }

  /** From position i on the string has the first k octets of e and nothing else. */
  ghost predicate CutOff(s: Octets, i: nat, e: Octets, k: nat) {
    && k <= |e| && s != []
    && if k == 0 then i >= |s| else i + k == |s| && s[i..] == e[..k]
  }

  lemma CutSplit(s: Octets, i: nat, a: Octets, b: Octets, k: nat)
    requires CutOff(s, i, a + b, k) && a != []
    ensures if k < |a| then CutOff(s, i, a, k) else Stands(s, i, a) && CutOff(s, i + |a|, b, k - |a|)
  {
    if k < |a| {
      assert (a + b)[..k] == a[..k];
    } else {
      assert (a + b)[..k] == a + b[..k - |a|];
      assert s[i..i + |a|] == s[i..][..|a|] == a;
      assert s[i + |a|..] == s[i..][|a|..] == b[..k - |a|];
    }
  }

  /** A head of which something is missing is refused. */
  lemma CutHead(s: Octets, i: nat, major: nat, w: nat, arg: nat, k: nat)
    requires major < 8 && Fits(w, arg) && CutOff(s, i, Head(major, w, arg), k) && 0 < k < 1 + w
    ensures Item(s, i) == Parsed(None, i)
  {
    assert s[i] == s[i..][0] == Head(major, w, arg)[0];
  }

  /** A string of which something is missing is refused. */
  lemma CutString(s: Octets, i: nat, major: nat, w: nat, b: Octets, k: nat)
    requires (major == 2 || major == 3) && Fits(w, |b|) && |b| < P31
    requires CutOff(s, i, Head(major, w, |b|) + b, k) && 0 < k < 1 + w + |b|
    ensures Item(s, i) == Parsed(None, i)
  {
    CutSplit(s, i, Head(major, w, |b|), b, k);
    if k < 1 + w {
      CutHead(s, i, major, w, |b|, k);
    } else {
      HeadReads(s, i, major, w, |b|);
      StringRefused(s, i, major, MinorOf(w, |b|), |b|, i + 1 + w);
    }
  }

  lemma StringRefused(s: Octets, i: nat, major: nat, minor: nat, n: nat, body: nat)
    requires (major == 2 || major == 3) && i < body && n < P32 && body + n > |s|
    ensures Content(s, i, major, minor, n, body) == Parsed(None, i)
  {
  }

  lemma CutScalar(s: Octets, i: nat, t: Tree, k: nat)
    requires WellFormed(t) && !t.List? && CutOff(s, i, Encode(t), k) && 0 < k < |Encode(t)|
    ensures Item(s, i) == CutResult(t, k, i) == Parsed(None, i)
  {
    match t
    case UInt(w, arg) => CutHead(s, i, 0, w, arg, k);
    case NInt(w, arg) => CutHead(s, i, 1, w, arg, k);
    case ByteString(w, b) => CutString(s, i, 2, w, b, k);
    case TextString(w, c) => CutString(s, i, 3, w, c, k);
    case Bool(b) =>
    case Null =>
    case Real(w, pattern) => CutHead(s, i, 7, w, pattern, k);
  }

  lemma {:induction false} CutItemReads(s: Octets, i: nat, t: Tree, k: nat)
    requires WellFormed(t) && CutOff(s, i, Encode(t), k)
    ensures Item(s, i) == CutResult(t, k, i)
    decreases t, 0
  {
    if t.List? && 1 + t.width <= k < |Encode(t)| {
      CutInList(s, i, t, k);
      CutItemsRead(s, i + 1 + t.width, t.items, k - 1 - t.width);
      CutListReads(s, i, t, k);
    } else {
      CutElsewhere(s, i, t, k);
    }
  }

  /** The item is whole, or nothing is there, or it is not cut in the items of a list. */
  lemma CutElsewhere(s: Octets, i: nat, t: Tree, k: nat)
    requires WellFormed(t) && CutOff(s, i, Encode(t), k) && !(t.List? && 1 + t.width <= k < |Encode(t)|)
    ensures Item(s, i) == CutResult(t, k, i)
  {
    if k == |Encode(t)| {
      CutNowhere(s, i, t);
    } else if k == 0 {
      PastTheEnd(s, i);
    } else if t.List? {
      CutListHead(s, i, t, k);
    } else {
      CutScalar(s, i, t, k);
    }
  }

  lemma CutNowhere(s: Octets, i: nat, t: Tree)
    requires WellFormed(t) && CutOff(s, i, Encode(t), |Encode(t)|)
    ensures Item(s, i) == CutResult(t, |Encode(t)|, i)
  {
    var e := Encode(t);
    assert s[i..i + |e|] == e[..|e|] == e;
    ItemReads(s, i, t);
  }

  lemma CutListHead(s: Octets, i: nat, t: Tree, k: nat)
    requires WellFormed(t) && t.List? && CutOff(s, i, Encode(t), k) && 0 < k < 1 + t.width
    ensures Item(s, i) == CutResult(t, k, i)
  {
    var h := Head(4, t.width, |t.items|);
    CutSplit(s, i, h, EncodeAll(t.items), k);
    CutHead(s, i, 4, t.width, |t.items|, k);
  }

  lemma CutInList(s: Octets, i: nat, t: Tree, k: nat)
    requires WellFormed(t) && t.List? && CutOff(s, i, Encode(t), k) && 1 + t.width <= k
    ensures |Encode(t)| == 1 + t.width + |EncodeAll(t.items)| && Stands(s, i, Head(4, t.width, |t.items|))
    ensures CutOff(s, i + 1 + t.width, EncodeAll(t.items), k - 1 - t.width)
  {
    CutSplit(s, i, Head(4, t.width, |t.items|), EncodeAll(t.items), k);
  }

  /** What happens to its items happens to a list. */
  lemma CutListReads(s: Octets, i: nat, t: Tree, k: nat)
    requires WellFormed(t) && t.List? && 1 + t.width <= k < |Encode(t)|
    requires Stands(s, i, Head(4, t.width, |t.items|))
    requires Items(s, i + 1 + t.width, |t.items|) == CutResults(t.items, k - 1 - t.width, i + 1 + t.width)
    ensures Item(s, i) == CutResult(t, k, i)
  {
    var r := CutResults(t.items, k - 1 - t.width, i + 1 + t.width);
    CutListResult(t, k, i, r);
    ListIs(s, i, t.width, |t.items|, r);
  }

  lemma CutListResult(t: Tree, k: nat, i: nat, r: Parsed)
    requires WellFormed(t) && t.List? && 1 + t.width <= k < |Encode(t)|
    requires r == CutResults(t.items, k - 1 - t.width, i + 1 + t.width)
    ensures CutResult(t, k, i) == (if r.leaves.None? then Parsed(None, i) else r)
    ensures r.leaves.Some? ==> r.leaves.value != []
  {
    CutResultOfList(t, k, i, r);
    CutResultsExact(t.items, k - 1 - t.width, i + 1 + t.width);
  }

  lemma ListIs(s: Octets, i: nat, w: nat, n: nat, r: Parsed)
    requires Fits(w, n) && n < P32 && Stands(s, i, Head(4, w, n)) && Items(s, i + 1 + w, n) == r
    requires r.leaves.Some? ==> r.leaves.value != []
    ensures Item(s, i) == if r.leaves.None? then Parsed(None, i) else r
  {
    if r.leaves.None? {
      ListRefused(s, i, w, n);
    } else {
      ListReads(s, i, w, n, r);
    }
  }

  lemma ListRefused(s: Octets, i: nat, w: nat, n: nat)
    requires Fits(w, n) && n < P32 && Stands(s, i, Head(4, w, n)) && Items(s, i + 1 + w, n).leaves.None?
    ensures Item(s, i) == Parsed(None, i)
  {
    HeadReads(s, i, 4, w, n);
  }

  lemma {:induction false} CutItemsRead(s: Octets, i: nat, ts: seq<Tree>, k: nat)
    requires (forall j :: 0 <= j < |ts| ==> WellFormed(ts[j])) && CutOff(s, i, EncodeAll(ts), k)
    ensures Items(s, i, |ts|) == CutResults(ts, k, i)
    decreases ts, 1
  {
    if ts != [] {
      CutFirst(s, i, ts, k);
      if k < |Encode(ts[0])| {
        CutItemReads(s, i, ts[0], k);
      }
      var l := HeadReadsAs(s, i, ts, k);
      if Item(s, i).leaves.Some? {
        CutItemsRead(s, Item(s, i).next, ts[1..], l);
      }
      CutItemsStep(s, i, ts, k, Item(s, i), l);
    }
  }

  /** The first item has been read: how much is there of the others? */
  lemma HeadReadsAs(s: Octets, i: nat, ts: seq<Tree>, k: nat) returns (l: nat)
    requires ts != [] && (forall j :: 0 <= j < |ts| ==> WellFormed(ts[j])) && CutOff(s, i, EncodeAll(ts), k)
    requires k < |Encode(ts[0])| ==> Item(s, i) == CutResult(ts[0], k, i)
    ensures HeadOf(ts, k, i, Item(s, i), l)
    ensures Item(s, i).leaves.Some? ==> CutOff(s, Item(s, i).next, EncodeAll(ts[1..]), l)
  {
    CutFirst(s, i, ts, k);
    if k < |Encode(ts[0])| {
      CutResultExact(ts[0], k, i);
      l := 0;
    } else {
      ItemReads(s, i, ts[0]);
      l := k - |Encode(ts[0])|;
    }
  }

  /** What the first of the items comes to, and how much is there of the others. */
  ghost predicate HeadOf(ts: seq<Tree>, k: nat, i: nat, head: Parsed, l: nat)
    requires ts != [] && forall j :: 0 <= j < |ts| ==> WellFormed(ts[j])
  {
    var n := |Encode(ts[0])|;
    && k <= |EncodeAll(ts)| && l <= |EncodeAll(ts[1..])|
    && if k < n then head == CutResult(ts[0], k, i) && l == 0
       else head == Parsed(Some(Leaves(ts[0])), i + n) && l == k - n
  }

  lemma CutFirst(s: Octets, i: nat, ts: seq<Tree>, k: nat)
    requires ts != [] && (forall j :: 0 <= j < |ts| ==> WellFormed(ts[j])) && CutOff(s, i, EncodeAll(ts), k)
    ensures var e, tail := Encode(ts[0]), EncodeAll(ts[1..]);
      if k < |e| then CutOff(s, i, e, k) && forall j: nat :: j >= i + k ==> CutOff(s, j, tail, 0)
      else Stands(s, i, e) && CutOff(s, i + |e|, tail, k - |e|)
  {
    CutSplit(s, i, Encode(ts[0]), EncodeAll(ts[1..]), k);
  }

  lemma CutItemsStep(s: Octets, i: nat, ts: seq<Tree>, k: nat, head: Parsed, l: nat)
    requires ts != [] && (forall j :: 0 <= j < |ts| ==> WellFormed(ts[j])) && HeadOf(ts, k, i, head, l)
    requires Item(s, i) == head
    requires head.leaves.Some? ==> Items(s, head.next, |ts| - 1) == CutResults(ts[1..], l, head.next)
    ensures Items(s, i, |ts|) == CutResults(ts, k, i)
  {
    CutResultsAre(ts, k, i, head, l);
    ItemsAre(s, i, |ts|, head, CutResults(ts[1..], l, head.next));
  }

  lemma CutResultsAre(ts: seq<Tree>, k: nat, i: nat, head: Parsed, l: nat)
    requires ts != [] && (forall j :: 0 <= j < |ts| ==> WellFormed(ts[j])) && HeadOf(ts, k, i, head, l)
    ensures CutResults(ts, k, i) == After(head, CutResults(ts[1..], l, head.next), i)
  {
  }

  lemma ItemsAre(s: Octets, i: nat, count: nat, head: Parsed, rest: Parsed)
    requires count > 0 && Item(s, i) == head && (head.leaves.Some? ==> Items(s, head.next, count - 1) == rest)
    ensures Items(s, i, count) == After(head, rest, i)
  {
  }

  lemma PastTheEndDefined(s: Octets, i: nat)
    requires |s| <= i < P31
    ensures Defined(s, i)
  {
  }

  lemma CutHeadDefined(s: Octets, i: nat, major: nat, w: nat, arg: nat, k: nat)
    requires major < 8 && Fits(w, arg) && CutOff(s, i, Head(major, w, arg), k) && 0 < k < 1 + w && i < P31
    ensures Defined(s, i)
  {
    assert s[i] == s[i..][0] == Head(major, w, arg)[0];
  }

  lemma CutStringDefined(s: Octets, i: nat, major: nat, w: nat, b: Octets, k: nat)
    requires (major == 2 || major == 3) && Fits(w, |b|) && i + 1 + w + |b| <= P31
    requires CutOff(s, i, Head(major, w, |b|) + b, k) && 0 < k < 1 + w + |b|
    ensures Defined(s, i)
  {
    CutSplit(s, i, Head(major, w, |b|), b, k);
    if k < 1 + w {
      CutHeadDefined(s, i, major, w, |b|, k);
    } else {
      HeadDefined(s, i, major, w, |b|);
    }
  }

  lemma CutScalarDefined(s: Octets, i: nat, t: Tree, k: nat)
    requires WellFormed(t) && !t.List? && CutOff(s, i, Encode(t), k) && 0 < k < |Encode(t)| && i + |Encode(t)| <= P31
    ensures Defined(s, i)
  {
    match t
    case UInt(w, arg) => CutHeadDefined(s, i, 0, w, arg, k);
    case NInt(w, arg) => CutHeadDefined(s, i, 1, w, arg, k);
    case ByteString(w, b) => CutStringDefined(s, i, 2, w, b, k);
    case TextString(w, c) => CutStringDefined(s, i, 3, w, c, k);
    case Bool(b) =>
    case Null =>
    case Real(w, pattern) => CutHeadDefined(s, i, 7, w, pattern, k);
  }

  lemma CutListHeadDefined(s: Octets, i: nat, t: Tree, k: nat)
    requires WellFormed(t) && t.List? && CutOff(s, i, Encode(t), k) && 0 < k < 1 + t.width && i < P31
    ensures Defined(s, i)
  {
    CutSplit(s, i, Head(4, t.width, |t.items|), EncodeAll(t.items), k);
    CutHeadDefined(s, i, 4, t.width, |t.items|, k);
  }

  lemma WholeDefined(s: Octets, i: nat, t: Tree)
    requires WellFormed(t) && CutOff(s, i, Encode(t), |Encode(t)|) && i + |Encode(t)| <= P31
    ensures Defined(s, i)
  {
    var e := Encode(t);
    assert s[i..i + |e|] == e[..|e|] == e;
    ItemDefined(s, i, t);
  }

  /** Truncated items are read in a defined way, too, if they would end below 2 to the 31. */
  lemma {:induction false} CutItemDefined(s: Octets, i: nat, t: Tree, k: nat)
    requires WellFormed(t) && CutOff(s, i, Encode(t), k) && i + |Encode(t)| <= P31
    ensures Defined(s, i)
    decreases t, 0
  {
    if k == |Encode(t)| {
      WholeDefined(s, i, t);
    } else if k == 0 {
      PastTheEndDefined(s, i);
    } else if !t.List? {
      CutScalarDefined(s, i, t, k);
    } else if k < 1 + t.width {
      CutListHeadDefined(s, i, t, k);
    } else {
      CutInList(s, i, t, k);
      CutItemsDefined(s, i + 1 + t.width, t.items, k - 1 - t.width);
      ListDefined(s, i, t.width, |t.items|);
    }
  }

  lemma {:induction false} CutItemsDefined(s: Octets, i: nat, ts: seq<Tree>, k: nat)
    requires (forall j :: 0 <= j < |ts| ==> WellFormed(ts[j])) && CutOff(s, i, EncodeAll(ts), k)
    requires i + |EncodeAll(ts)| <= P31
    ensures DefinedItems(s, i, |ts|)
    decreases ts, 1
  {
    if ts != [] {
      CutFirst(s, i, ts, k);
      var l, next := CutNext(s, i, ts, k);
      if k < |Encode(ts[0])| {
        CutItemDefined(s, i, ts[0], k);
      } else {
        ItemDefined(s, i, ts[0]);
      }
      if Item(s, i).leaves.Some? {
        CutItemsDefined(s, next, ts[1..], l);
      }
    }
  }

  /** Where the second item starts, and how much is there from it on. */
  lemma CutNext(s: Octets, i: nat, ts: seq<Tree>, k: nat) returns (l: nat, next: nat)
    requires ts != [] && (forall j :: 0 <= j < |ts| ==> WellFormed(ts[j])) && CutOff(s, i, EncodeAll(ts), k)
    ensures |EncodeAll(ts)| == |Encode(ts[0])| + |EncodeAll(ts[1..])|
    ensures Item(s, i).leaves.Some? ==>
      next == Item(s, i).next <= i + |Encode(ts[0])| && CutOff(s, next, EncodeAll(ts[1..]), l)
  {
    CutFirst(s, i, ts, k);
    if k < |Encode(ts[0])| {
      CutItemReads(s, i, ts[0], k);
      CutResultExact(ts[0], k, i);
    }
    l := HeadReadsAs(s, i, ts, k);
    next := Item(s, i).next;
    if k >= |Encode(ts[0])| {
      ItemReads(s, i, ts[0]);
    }
  }

  /** An item of which only the first octets are there is refused exactly if it is cut inside; otherwise it
      is read with a zero for each item that is missing.  All positions that are read are within the length
      that the whole item would have. */
  lemma TruncatedItem(s: Octets, i: nat, t: Tree, k: nat)
    requires WellFormed(t) && CutOff(s, i, Encode(t), k)
    ensures Item(s, i).leaves.None? <==> CutInside(t, k)
    ensures Item(s, i) == CutResult(t, k, i) && Item(s, i).next <= i + |Encode(t)|
    ensures i + |Encode(t)| <= P31 ==> Defined(s, i)
  {
    CutItemReads(s, i, t, k);
    CutResultExact(t, k, i);
    if i + |Encode(t)| <= P31 {
      CutItemDefined(s, i, t, k);
    }
  }

  /** The next value of a stream that ends within an item: none, with the input left as it is, exactly if
      the input is empty or the item is cut inside; otherwise the rest of the input is gone. */
  lemma TruncatedNext(t: Tree, k: nat)
    requires WellFormed(t) && k < |Encode(t)| < P31
    ensures var s := Encode(t)[..k];
      && Defined(s, 0)
      && NextOf(s, false) == if k == 0 || CutInside(t, k) then (None, s) else (CutResult(t, k, 0).leaves, [])
  {
    var s := Encode(t)[..k];
    if k > 0 {
      assert s[0..] == s;
      TruncatedItem(s, 0, t, k);
      CutResultExact(t, k, 0);
    }
  }
}
