/** Byte strings held as lists of fragments, and what the string operations mean on them. */
module Fragments {
  import opened Basics
  import Lcg

  type Byte = bv8
  type Bytes = seq<Byte>

  function Flatten(fr: seq<Bytes>): Bytes {
    if fr == [] then [] else fr[0] + Flatten(fr[1..])
  }

  /** Where fragment k starts in the flat string. */
  function Offset(fr: seq<Bytes>, k: nat): nat
    requires k <= |fr|
  {
    if k == 0 then 0 else Offset(fr, k - 1) + |fr[k - 1]|
  }

  ghost predicate NonEmpty(fr: seq<Bytes>) {
    forall i :: 0 <= i < |fr| ==> fr[i] != []
  }

  lemma {:induction false} FlattenConcat(a: seq<Bytes>, b: seq<Bytes>)
    ensures Flatten(a + b) == Flatten(a) + Flatten(b)
  {
    if a == [] {
      assert a + b == b;
    } else {
      FlattenConcat(a[1..], b);
      assert (a + b)[1..] == a[1..] + b;
      Associative(a[0], Flatten(a[1..]), Flatten(b));
    }
  }

  lemma FlattenOne(a: Bytes)
    ensures Flatten([a]) == a
  {
    assert [a][1..] == [];
  }

  lemma {:induction false} OffsetIsLength(fr: seq<Bytes>, k: nat)
    requires k <= |fr|
    ensures Offset(fr, k) == |Flatten(fr[..k])|
  {
    if k != 0 {
      OffsetIsLength(fr, k - 1);
      assert fr[..k] == fr[..k - 1] + [fr[k - 1]];
      FlattenConcat(fr[..k - 1], [fr[k - 1]]);
      FlattenOne(fr[k - 1]);
    }
  }

  lemma Middle<T>(a: seq<T>, b: seq<T>, c: seq<T>)
    ensures (a + (b + c))[|a|..|a| + |b|] == b
  {
  }

  /** The flat string around fragment k. */
  lemma SplitAt(fr: seq<Bytes>, k: nat)
    requires k < |fr|
    ensures Flatten(fr) == Flatten(fr[..k]) + (fr[k] + Flatten(fr[k + 1..]))
    ensures Offset(fr, k) == |Flatten(fr[..k])|
  {
    OffsetIsLength(fr, k);
    assert fr == fr[..k] + fr[k..];
    FlattenConcat(fr[..k], fr[k..]);
    assert fr[k..][1..] == fr[k + 1..];
  }

  lemma FragmentInPlace(fr: seq<Bytes>, k: nat)
    requires k < |fr|
    ensures Offset(fr, k) + |fr[k]| <= |Flatten(fr)|
    ensures Flatten(fr)[Offset(fr, k)..Offset(fr, k) + |fr[k]|] == fr[k]
  {
    SplitAt(fr, k);
    Middle(Flatten(fr[..k]), fr[k], Flatten(fr[k + 1..]));
  }

  lemma ByteAtCursor(fr: seq<Bytes>, k: nat, j: nat)
    requires k < |fr| && j < |fr[k]|
    ensures Offset(fr, k) + j < |Flatten(fr)|
    ensures Flatten(fr)[Offset(fr, k) + j] == fr[k][j]
  {
    FragmentInPlace(fr, k);
    assert Flatten(fr)[Offset(fr, k)..Offset(fr, k) + |fr[k]|][j] == fr[k][j];
  }

  lemma WholeLength(fr: seq<Bytes>)
    ensures Offset(fr, |fr|) == |Flatten(fr)|
  {
    OffsetIsLength(fr, |fr|);
    assert fr[..|fr|] == fr;
  }

  // ----- runs of elements

  /** The k elements from position pos on. */
  ghost function Taken<T>(s: seq<T>, pos: nat, k: nat): (t: seq<T>)
    requires pos + k <= |s|
    ensures |t| == k && forall i :: 0 <= i < k ==> t[i] == s[pos + i]
  {
    seq(k, i requires 0 <= i < k => s[pos + i])
  }

  /** What is left when they are taken out. */
  ghost function Kept<T>(s: seq<T>, pos: nat, k: nat): (t: seq<T>)
    requires pos + k <= |s|
    ensures |t| == |s| - k && forall i :: 0 <= i < |s| - k ==> t[i] == if i < pos then s[i] else s[i + k]
  {
    seq(|s| - k, i requires 0 <= i < |s| - k => if i < pos then s[i] else s[i + k])
  }

  lemma TakenAndKept<T>(s: seq<T>, pos: nat, k: nat)
    requires pos + k <= |s|
    ensures Taken(s, pos, k) == s[pos..pos + k] && Kept(s, pos, k) == s[..pos] + s[pos + k..]
  {
  }

  /** A reading position: byte j of fragment k, which is byte p of the flat string; past the last
      fragment it is the end. */
  ghost predicate Cursor(fr: seq<Bytes>, k: nat, j: nat, p: nat) {
    && k <= |fr| && p == Offset(fr, k) + j
    && (if k < |fr| then j < |fr[k]| else j == 0)
  }

  lemma CursorStep(fr: seq<Bytes>, k: nat, j: nat, p: nat)
    requires NonEmpty(fr) && Cursor(fr, k, j, p) && k < |fr|
    ensures p < |Flatten(fr)| && Flatten(fr)[p] == fr[k][j]
    ensures if j + 1 < |fr[k]| then Cursor(fr, k, j + 1, p + 1) else Cursor(fr, k + 1, 0, p + 1)
  {
    ByteAtCursor(fr, k, j);
  }

  lemma CursorAtEnd(fr: seq<Bytes>, k: nat, j: nat, p: nat)
    requires Cursor(fr, k, j, p)
    ensures p <= |Flatten(fr)| && (k == |fr| <==> p == |Flatten(fr)|)
  {
    if k < |fr| {
      ByteAtCursor(fr, k, j);
    } else {
      WholeLength(fr);
    }
  }

  // ----- the 16-bit count of fragments

  /** What a 16-bit counter shows after n steps. */
  function Counted(n: nat): (c: nat)
    ensures c == n % P16 && c <= n && (c == n <==> n < P16)
  {
    if n == 0 then 0
    else
      var c := Counted(n - 1);
      if c == P16 - 1 then 0 else c + 1
  }

  /** How many of n fragments are moved when up to count are wanted from pos on.  The subtraction is of
      32 bits and unsigned, and its result is compared as a signed number. */
  function Available(n: nat, pos: nat, count: nat): (k: nat)
    requires pos < P32 && count < P32
    ensures k == 0 || pos + k <= n
  {
    var room := Difference32(Counted(n), pos);
    var fragCount := if count < room then count else room;
    if fragCount == 0 || pos >= n then 0
    else if fragCount >= P31 then 1
    else if fragCount < n - pos then fragCount else n - pos
  }

  /** What is moved in each case: a start behind the 16-bit count, but not behind the last fragment, makes the
      unsigned difference so large that only the end of the list and the signed comparison limit the number. */
  lemma AvailableCases(n: nat, pos: nat, count: nat)
    requires n < P31 && pos < P32 && count < P32
    ensures var c := n % P16;
      Available(n, pos, count) ==
        if pos >= n || pos == c then 0
        else if pos < c then Min(count, c - pos)
        else if count >= P31 then 1
        else Min(count, n - pos)
  {
    var c := Counted(n);
    assert Difference32(c, pos) == if pos <= c then c - pos else P32 + c - pos;
  }

  /** How many there are of those that are wanted. */
  function Wanted(n: nat, pos: nat, count: nat): nat {
    if pos >= n then 0 else if count < n - pos then count else n - pos
  }

  /** All that is wanted and there is moved, exactly for fewer than 65536 fragments. */
  lemma AvailableExact(n: nat)
    requires n < P31
    ensures (forall pos, count :: 0 <= pos < P32 && 0 <= count < P32
              ==> Available(n, pos, count) == Wanted(n, pos, count))
            <==> n < P16
  {
    if n >= P16 {
      assert Available(n, 0, n) < Wanted(n, 0, n);
    }
  }

  // ----- limits and offsets as signed numbers

  /** How many bytes concatLimit takes of so many: the limit is cast to a signed number. */
  function LimitTaken(limit: nat, length: nat): (n: nat)
    requires limit < P32 && length < P31
    ensures n == if limit < P31 then Min(limit, length) else 0
  {
    if 0 < Min(AsInt32(limit), length) then Min(AsInt32(limit), length) else 0
  }

  /** It takes as many as it should of every string exactly for limits that the cast keeps. */
  lemma LimitExact(limit: nat)
    requires limit < P32
    ensures (forall length: nat :: length < P31 ==> LimitTaken(limit, length) == Min(limit, length)) <==> limit < P31
  {
    if limit >= P31 {
      assert LimitTaken(limit, 1) != Min(limit, 1);
    }
  }

  /** How much copyToBuffer takes to be behind an offset. */
  function Behind(length: nat, start: nat): int
    requires length < P31 && start < P32
  {
    AsInt32(Difference32(length, start))
  }

  /** It tells offsets within the string from others exactly up to 2 to the 31 behind the string. */
  lemma BehindExact(length: nat, start: nat)
    requires length < P31 && start < P32
    ensures (0 < Behind(length, start) <==> start < length) <==> start <= length + P31
    ensures start < length ==> Behind(length, start) == length - start
  {
  }

  /** The test whether a range is within the string, whose sum may wrap, is right exactly if the sum is a
      signed number. */
  lemma RangeExact(length: nat, offset: nat, newLength: nat)
    requires length < P31 && offset < P31 && 0 < newLength < P31
    ensures (length >= AsInt32(offset + newLength) <==> length >= offset + newLength) <==> offset + newLength < P31
  {
  }

  // ----- chunk

  function Chunks(s: Bytes, n: nat): seq<Bytes>
    requires n > 0
  {
    if s == [] then []
    else if |s| <= n then [s]
    else [s[..n]] + Chunks(s[n..], n)
  }

  /** The chunks hold the same bytes; all are n long but the last, which has 1 to n. */
  lemma {:induction false} ChunksCover(s: Bytes, n: nat)
    requires n > 0
    ensures Flatten(Chunks(s, n)) == s
    ensures forall i :: 0 <= i < |Chunks(s, n)| - 1 ==> |Chunks(s, n)[i]| == n
    ensures s != [] ==> Chunks(s, n) != [] && 1 <= |Chunks(s, n)[|Chunks(s, n)| - 1]| <= n
    decreases |s|
  {
    if s != [] {
      if |s| <= n {
        FlattenOne(s);
      } else {
        ChunksCover(s[n..], n);
        assert Chunks(s, n)[1..] == Chunks(s[n..], n);
        assert s == s[..n] + s[n..];
      }
    }
  }

  /** Divided by n and rounded up. */
  function Ceiling(x: nat, n: nat): nat
    requires n > 0
  {
    (x + n - 1) / n
  }

  /** There are as many chunks as the length divided by n, rounded up. */
  lemma {:induction false} ChunkCount(s: Bytes, n: nat)
    requires n > 0
    ensures |Chunks(s, n)| == Ceiling(|s|, n)
    decreases |s|
  {
    if |s| > n {
      ChunkCount(s[n..], n);
      CeilingStep(|s| - n, n);
    } else {
      CeilingSmall(|s|, n);
    }
  }

  lemma CeilingStep(x: nat, n: nat)
    requires n > 0
    ensures Ceiling(x + n, n) == Ceiling(x, n) + 1
  {
    var y := x + n - 1;
    Lcg.ModUnique(y + n, n, y / n + 1, y % n);
  }

  lemma CeilingSmall(x: nat, n: nat)
    requires x <= n && n > 0
    ensures Ceiling(x, n) == if x == 0 then 0 else 1
  {
    if x == 0 {
      Lcg.ModUnique(n - 1, n, 0, n - 1);
    } else {
      Lcg.ModUnique(x + n - 1, n, 1, x - 1);
    }
  }

  // ----- implode

  function Join(fr: seq<Bytes>, d: Bytes): Bytes {
    if fr == [] then [] else if |fr| == 1 then fr[0] else fr[0] + d + Join(fr[1..], d)
  }

  ghost predicate StandsAt<T>(s: seq<T>, at: int, e: seq<T>) {
    0 <= at && at + |e| <= |s| && s[at..at + |e|] == e
  }

  lemma StandsBehind<T>(a: seq<T>, b: seq<T>, at: int, e: seq<T>)
    requires StandsAt(b, at, e)
    ensures StandsAt(a + b, |a| + at, e)
  {
    assert (a + b)[|a| + at..|a| + at + |e|] == b[at..at + |e|];
  }

  lemma StandsBetween<T>(a: seq<T>, e: seq<T>, b: seq<T>)
    ensures StandsAt(a + e + b, |a|, e)
  {
    assert (a + e + b)[|a|..|a| + |e|] == e;
  }

  /** k times d, by adding. */
  function Times(k: nat, d: int): int {
    if k == 0 then 0 else Times(k - 1, d) + d
  }

  lemma {:induction false} TimesIsProduct(k: nat, d: int)
    ensures Times(k, d) == k * d
  {
    if k != 0 {
      TimesIsProduct(k - 1, d);
      assert k * d == (k - 1) * d + d;
    }
  }

  /** Where each fragment stands in the joined string, and that the delimiter follows all but the last. */
  lemma JoinPlaces(fr: seq<Bytes>, d: Bytes, k: nat, at: nat)
    requires k < |fr| && at == Offset(fr, k) + k * |d|
    ensures var j := Join(fr, d);
      StandsAt(j, at, fr[k]) && if k + 1 == |fr| then at + |fr[k]| == |j| else StandsAt(j, at + |fr[k]|, d)
  {
    TimesIsProduct(k, |d|);
    JoinPlacesAt(fr, d, k, at);
  }

  lemma JoinPlacesAt(fr: seq<Bytes>, d: Bytes, k: nat, at: nat)
    requires k < |fr| && at == Offset(fr, k) + Times(k, |d|)
    ensures var j := Join(fr, d);
      StandsAt(j, at, fr[k]) && if k + 1 == |fr| then at + |fr[k]| == |j| else StandsAt(j, at + |fr[k]|, d)
  {
    var front := JoinFront(fr, d, k);
    var tail := Join(fr[k + 1..], d);
    if k + 1 == |fr| {
      StandsBetween(front, fr[k], []);
      assert front + fr[k] + [] == front + fr[k];
    } else {
      JoinStep(front, fr, k, d);
      StandsBetween(front, fr[k], d + tail);
      StandsBetween(front + fr[k], d, tail);
      assert front + fr[k] + (d + tail) == front + fr[k] + d + tail;
    }
  }

  /** What comes before fragment k. */
  lemma {:induction false} JoinFront(fr: seq<Bytes>, d: Bytes, k: nat) returns (front: Bytes)
    requires k < |fr|
    ensures |front| == Offset(fr, k) + Times(k, |d|) && Join(fr, d) == front + Join(fr[k..], d)
    decreases k
  {
    front := [];
    if k == 0 {
      assert fr[0..] == fr && [] + Join(fr, d) == Join(fr, d);
    } else {
      front := JoinFront(fr, d, k - 1);
      JoinStep(front, fr, k - 1, d);
      front := front + fr[k - 1] + d;
    }
  }

  lemma JoinStep(joined: Bytes, fr: seq<Bytes>, k: nat, d: Bytes)
    requires k < |fr|
    ensures joined + Join(fr[k..], d)
         == (if k + 1 < |fr| then joined + fr[k] + d else joined + fr[k]) + Join(fr[k + 1..], d)
  {
    assert fr[k..][1..] == fr[k + 1..];
  }

  // ----- split

  /** The part of a buffer that a C string function sees. */
  function BeforeNul(s: Bytes): (t: Bytes)
    ensures |t| <= |s| && t == s[..|t|] && (forall i :: 0 <= i < |t| ==> t[i] != 0)
    ensures |t| < |s| ==> s[|t|] == 0
  {
    if s == [] || s[0] == 0 then [] else [s[0]] + BeforeNul(s[1..])
  }

  /** How many leading bytes are in the set (or are not in it). */
  function Span(s: Bytes, d: set<Byte>, inside: bool): (k: nat)
    ensures k <= |s| && (k < |s| ==> (s[k] in d) != inside)
    ensures forall i :: 0 <= i < k ==> (s[i] in d) == inside
  {
    if s == [] || (s[0] in d) != inside then 0 else 1 + Span(s[1..], d, inside)
  }

  /** The tokens of strtok: maximal runs of bytes that are not delimiters. */
  function Tokens(s: Bytes, d: set<Byte>): seq<Bytes>
    decreases |s|
  {
    var t := s[Span(s, d, true)..];
    if t == [] then []
    else
      var k := Span(t, d, false);
      [t[..k]] + Tokens(t[k..], d)
  }

  function Without(s: Bytes, d: set<Byte>): Bytes {
    if s == [] then [] else (if s[0] in d then [] else [s[0]]) + Without(s[1..], d)
  }

  ghost predicate Free(s: Bytes, d: set<Byte>) {
    forall i :: 0 <= i < |s| ==> s[i] !in d
  }

  ghost predicate AllIn(s: Bytes, d: set<Byte>) {
    forall i :: 0 <= i < |s| ==> s[i] in d
  }

  lemma {:induction false} WithoutConcat(a: Bytes, b: Bytes, d: set<Byte>)
    ensures Without(a + b, d) == Without(a, d) + Without(b, d)
  {
    if a == [] {
      assert a + b == b;
    } else {
      WithoutConcat(a[1..], b, d);
      assert (a + b)[1..] == a[1..] + b;
      Associative(if a[0] in d then [] else [a[0]], Without(a[1..], d), Without(b, d));
    }
  }

  lemma {:induction false} WithoutFree(s: Bytes, d: set<Byte>)
    requires Free(s, d)
    ensures Without(s, d) == s
  {
    if s != [] {
      WithoutFree(s[1..], d);
    }
  }

  lemma {:induction false} WithoutDelimiters(s: Bytes, d: set<Byte>)
    requires AllIn(s, d)
    ensures Without(s, d) == []
  {
    if s != [] {
      WithoutDelimiters(s[1..], d);
    }
  }

  /** Tokens are non-empty and free of delimiters, and together they are the string with its
      delimiters taken out. */
  lemma {:induction false} TokensFilter(s: Bytes, d: set<Byte>)
    ensures Flatten(Tokens(s, d)) == Without(s, d)
    ensures forall t :: t in Tokens(s, d) ==> t != [] && Free(t, d)
    decreases |s|
  {
    var a := Span(s, d, true);
    var t := s[a..];
    WithoutLeading(s, d, a);
    if t != [] {
      var k := Span(t, d, false);
      TokensFilter(t[k..], d);
      WithoutToken(t, d, k);
      FirstToken(t[..k], Tokens(t[k..], d), d);
    }
  }

  lemma WithoutLeading(s: Bytes, d: set<Byte>, a: nat)
    requires a <= |s| && forall i :: 0 <= i < a ==> s[i] in d
    ensures Without(s, d) == Without(s[a..], d)
  {
    assert s == s[..a] + s[a..];
    WithoutConcat(s[..a], s[a..], d);
    WithoutDelimiters(s[..a], d);
    assert [] + Without(s[a..], d) == Without(s[a..], d);
  }

  lemma WithoutToken(t: Bytes, d: set<Byte>, k: nat)
    requires k <= |t| && Free(t[..k], d)
    ensures Without(t, d) == t[..k] + Without(t[k..], d)
  {
    assert t == t[..k] + t[k..];
    WithoutConcat(t[..k], t[k..], d);
    WithoutFree(t[..k], d);
  }

  lemma FirstToken(t: Bytes, rest: seq<Bytes>, d: set<Byte>)
    requires t != [] && Free(t, d) && forall u :: u in rest ==> u != [] && Free(u, d)
    ensures Flatten([t] + rest) == t + Flatten(rest)
    ensures forall u :: u in [t] + rest ==> u != [] && Free(u, d)
  {
    assert ([t] + rest)[1..] == rest;
  }

  // ----- implode, then split

  lemma {:induction false} SpanOfFree(t: Bytes, rest: Bytes, d: set<Byte>)
    requires Free(t, d) && (rest == [] || rest[0] in d)
    ensures Span(t + rest, d, false) == |t|
  {
    if t == [] {
      assert t + rest == rest;
    } else {
      SpanOfFree(t[1..], rest, d);
      assert (t + rest)[1..] == t[1..] + rest;
    }
  }

  lemma {:induction false} SkipDelimiters(x: Bytes, s: Bytes, d: set<Byte>)
    requires forall i :: 0 <= i < |x| ==> x[i] in d
    ensures Tokens(x + s, d) == Tokens(s, d)
  {
    if x == [] {
      assert x + s == s;
    } else {
      SkipDelimiters(x[1..], s, d);
      assert x + s == [x[0]] + (x[1..] + s);
      SkipOne(x[0], x[1..] + s, d);
    }
  }

  lemma SkipOne(b: Byte, y: Bytes, d: set<Byte>)
    requires b in d
    ensures Tokens([b] + y, d) == Tokens(y, d)
  {
    var z, k := [b] + y, Span(y, d, true);
    assert z[1..] == y;
    assert z[1 + k..] == y[k..];
  }

  lemma TokenThenRest(t: Bytes, rest: Bytes, d: set<Byte>)
    requires t != [] && Free(t, d) && (rest == [] || rest[0] in d)
    ensures Tokens(t + rest, d) == [t] + Tokens(rest, d)
  {
    var s := t + rest;
    assert s[0] == t[0] && Span(s, d, true) == 0;
    assert s[0..] == s;
    SpanOfFree(t, rest, d);
    assert s[..|t|] == t && s[|t|..] == rest;
  }

  /** Joining clean fragments with delimiters and taking tokens gives the fragments back. */
  lemma {:induction false} TokensOfJoin(fr: seq<Bytes>, d: Bytes)
    requires NonEmpty(fr) && d != [] && forall i :: 0 <= i < |fr| ==> Free(fr[i], Members(d))
    ensures Tokens(Join(fr, d), Members(d)) == fr
  {
    var m := Members(d);
    if |fr| == 1 {
      assert fr[0] + [] == fr[0];
      TokenThenRest(fr[0], [], m);
      assert fr == [fr[0]] + Tokens([], m);
    } else if |fr| > 1 {
      TokensOfJoin(fr[1..], d);
      TokenThenJoin(fr[0], d, Join(fr[1..], d));
      assert fr == [fr[0]] + fr[1..];
    }
  }

  lemma TokenThenJoin(t: Bytes, d: Bytes, rest: Bytes)
    requires t != [] && d != [] && Free(t, Members(d))
    ensures Tokens(t + d + rest, Members(d)) == [t] + Tokens(rest, Members(d))
  {
    Associative(t, d, rest);
    assert (d + rest)[0] == d[0] && d[0] in Members(d);
    TokenThenRest(t, d + rest, Members(d));
    SkipDelimiters(d, rest, Members(d));
  }

  function Members(d: Bytes): set<Byte> {
    set i | 0 <= i < |d| :: d[i]
  }

  lemma {:induction false} BeforeNulWhole(s: Bytes)
    requires 0 !in s
    ensures BeforeNul(s) == s
  {
    var t := BeforeNul(s);
    assert |t| == |s|;
  }

  lemma {:induction false} JoinHasNoNul(fr: seq<Bytes>, d: Bytes)
    requires 0 !in d && forall i :: 0 <= i < |fr| ==> 0 !in fr[i]
    ensures 0 !in Join(fr, d)
  {
    if |fr| > 1 {
      JoinHasNoNul(fr[1..], d);
    }
  }

  /** What split makes of a flat string. */
  function SplitText(s: Bytes, d: Bytes): seq<Bytes> {
    Tokens(BeforeNul(s), Members(d))
  }

  /** Holds neither a delimiter nor a NUL. */
  ghost predicate Clean(s: Bytes, d: Bytes) {
    Free(s, Members(d)) && 0 !in s
  }

  /** Splitting undoes joining exactly for clean fragments. */
  lemma SplitUndoesJoin(fr: seq<Bytes>, d: Bytes)
    requires NonEmpty(fr) && d != [] && 0 !in d
    ensures SplitText(Join(fr, d), d) == fr <==> forall i :: 0 <= i < |fr| ==> Clean(fr[i], d)
  {
    var s := Join(fr, d);
    if forall i :: 0 <= i < |fr| ==> Clean(fr[i], d) {
      JoinHasNoNul(fr, d);
      BeforeNulWhole(s);
      TokensOfJoin(fr, d);
    }
    if SplitText(s, d) == fr {
      TokensFilter(BeforeNul(s), Members(d));
      TokensFrom(BeforeNul(s), Members(d));
      forall i | 0 <= i < |fr| ensures Clean(fr[i], d) {
        assert fr[i] in Tokens(BeforeNul(s), Members(d));
      }
    }
  }

  /** Tokens hold only bytes of the string. */
  lemma {:induction false} TokensFrom(s: Bytes, d: set<Byte>)
    ensures forall t, x :: t in Tokens(s, d) && x in t ==> x in s
    decreases |s|
  {
    var t := s[Span(s, d, true)..];
    if t != [] {
      var k := Span(t, d, false);
      TokensFrom(t[k..], d);
    }
  }

  /** Does implode join?  It wants a delimiter, more than two bytes, and more than one fragment as the
      16-bit count has it. */
  predicate Joins(fr: seq<Bytes>, d: Bytes) {
    d != [] && |Flatten(fr)| > 2 && Counted(|fr|) > 1
  }

  /** The fragments after implode. */
  function Imploded(fr: seq<Bytes>, d: Bytes): seq<Bytes> {
    if Joins(fr, d) then [Join(fr, d)] else fr
  }

  /** The fragments after split. */
  function SplitUp(fr: seq<Bytes>, d: Bytes): seq<Bytes> {
    var text := Flatten(fr);
    var tokens := SplitText(text, d);
    if text == [] then [] else if tokens == [] then [text] else tokens
  }

  /** Implode and then split with the same delimiter restore the fragments exactly in these cases: there
      are none; there is one, and it is clean or begins with nothing but delimiters up to its end or its
      first NUL; or there are more, implode joins them, and all are clean. */
  lemma SplitUndoesImplode(fr: seq<Bytes>, d: Bytes)
    requires NonEmpty(fr) && 0 !in d && (Joins(fr, d) ==> |fr| < P16)
    ensures SplitUp(Imploded(fr, d), d) == fr
       <==> || fr == []
            || (|fr| == 1 && (Clean(fr[0], d) || AllIn(BeforeNul(fr[0]), Members(d))))
            || (|fr| > 1 && Joins(fr, d) && forall i :: 0 <= i < |fr| ==> Clean(fr[i], d))
  {
    if |fr| == 1 {
      FlattenOne(fr[0]);
      assert fr == [fr[0]];
      SplitOne(fr[0], d);
    } else if Joins(fr, d) {
      FlattenOne(Join(fr, d));
      JoinIsNotEmpty(fr, d);
      SplitUndoesJoin(fr, d);
    } else if |fr| > 1 {
      SplitKeepsOne(fr, d);
    }
  }

  /** A string that is one fragment. */
  lemma SplitOne(s: Bytes, d: Bytes)
    requires s != [] && 0 !in d
    ensures SplitUp([s], d) == [s] <==> Clean(s, d) || AllIn(BeforeNul(s), Members(d))
  {
    FlattenOne(s);
    NoTokens(BeforeNul(s), Members(d));
    OneToken(s, d);
  }

  lemma MembersAre(d: Bytes)
    ensures forall x :: x in Members(d) <==> x in d
  {
  }

  /** There is no token exactly if there are only delimiters. */
  lemma NoTokens(s: Bytes, m: set<Byte>)
    ensures Tokens(s, m) == [] <==> AllIn(s, m)
  {
    var k := Span(s, m, true);
    if k < |s| {
      assert s[k..] != [];
    }
  }

  /** The only token is the string itself exactly if the string is clean. */
  lemma OneToken(s: Bytes, d: Bytes)
    requires s != []
    ensures SplitText(s, d) == [s] <==> Clean(s, d)
  {
    var m, t := Members(d), BeforeNul(s);
    if Clean(s, d) {
      BeforeNulWhole(s);
      assert s + [] == s;
      TokenThenRest(s, [], m);
    }
    if SplitText(s, d) == [s] {
      TokensFilter(t, m);
      TokensFrom(t, m);
      assert s in Tokens(t, m);
    }
  }

  /** A string of several fragments is not split into them, unless they were joined. */
  lemma SplitKeepsOne(fr: seq<Bytes>, d: Bytes)
    requires NonEmpty(fr) && |fr| > 1
    ensures SplitUp(fr, d) != fr
  {
    var s, m := Flatten(fr), Members(d);
    if SplitText(s, d) == fr {
      TokensFilter(BeforeNul(s), m);
      WithoutLength(BeforeNul(s), m);
      assert |BeforeNul(s)| == |s| && BeforeNul(s) == s;
      assert s != [] by {
        assert s == fr[0] + Flatten(fr[1..]);
      }
      OneToken(s, d);
      assert false;
    }
  }

  /** Nothing is lost exactly if there is no delimiter. */
  lemma {:induction false} WithoutLength(s: Bytes, d: set<Byte>)
    ensures |Without(s, d)| <= |s| && (|Without(s, d)| == |s| <==> Free(s, d))
  {
    if s != [] {
      WithoutLength(s[1..], d);
      assert Free(s, d) <==> s[0] !in d && Free(s[1..], d) by {
        assert forall i :: 0 <= i < |s| - 1 ==> s[1..][i] == s[i + 1];
      }
    }
  }

  lemma JoinIsNotEmpty(fr: seq<Bytes>, d: Bytes)
    requires NonEmpty(fr) && fr != []
    ensures Join(fr, d) != []
  {
  }

  /** The condition on the length is needed: two fragments of one byte each are not joined, and split
      makes one fragment of them. */
  lemma TwoBytesAreMerged(a: Byte, b: Byte, d: Bytes)
    requires 0 !in d && Clean([a, b], d)
    ensures SplitUp(Imploded([[a], [b]], d), d) == [[a, b]]
  {
    var fr := [[a], [b]];
    assert fr[1..] == [[b]];
    FlattenOne([b]);
    assert Flatten(fr) == [a, b];
    OneToken([a, b], d);
  }

  /** The buffer that implode allocates for the joined string, whose size is computed with the 16-bit
      count, is filled exactly, if there are fewer than 65536 fragments; otherwise it is too small. */
  lemma JoinLength(fr: seq<Bytes>, d: Bytes)
    requires Counted(|fr|) > 0 && d != []
    ensures var size := (Counted(|fr|) - 1) * |d| + |Flatten(fr)|;
      size <= |Join(fr, d)| && (size == |Join(fr, d)| <==> |fr| < P16)
  {
    JoinedLength(fr, d);
    var n, c := |fr|, Counted(|fr|);
    LessByCount(n - 1, c - 1, |d|);
  }

  lemma {:induction false} LessByCount(n: nat, c: nat, d: nat)
    requires c <= n && 0 < d
    ensures c * d <= n * d && (c * d == n * d <==> c == n)
  {
    if c < n {
      LessByCount(n - 1, c, d);
      assert n * d == (n - 1) * d + d;
    }
  }

  lemma {:induction false} JoinedLength(fr: seq<Bytes>, d: Bytes)
    requires fr != []
    ensures |Join(fr, d)| == (|fr| - 1) * |d| + |Flatten(fr)|
  {
    if |fr| == 1 {
      FlattenOne(fr[0]);
      assert fr == [fr[0]];
    } else {
      JoinedLength(fr[1..], d);
      var a, b := |fr| - 2, |d|;
      assert (a + 1) * b == a * b + b;
    }
  }
}
