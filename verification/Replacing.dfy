/** The replacement scan on a flat string.

    The scan compares one byte at a time.  After a mismatch inside a partial match it starts again
    with the current byte, not with the byte after the start of the partial match. */
module Replacing {
  import opened Basics
  import opened Fragments

  /** Where the scan finds the needle, from position p on with m bytes already matched. */
  ghost function Hits(h: Bytes, needle: Bytes, p: nat, m: nat): seq<nat>
    requires m < |needle| && m <= p <= |h|
    decreases |h| - p, m
  {
    if p == |h| then []
    else if h[p] == needle[m] then
      if m + 1 == |needle| then [p + 1 - |needle|] + Hits(h, needle, p + 1, 0)
      else Hits(h, needle, p + 1, m + 1)
    else if m > 0 then Hits(h, needle, p, 0)
    else Hits(h, needle, p + 1, 0)
  }

  /** The needle occurs in h at position i. */
  ghost predicate Occurs(h: Bytes, needle: Bytes, i: nat) {
    i + |needle| <= |h| && h[i..i + |needle|] == needle
  }

  /** The leftmost non-overlapping occurrences from position p on. */
  ghost function Leftmost(h: Bytes, needle: Bytes, p: nat): seq<nat>
    requires needle != []
    decreases if p <= |h| then |h| - p else 0
  {
    if p + |needle| > |h| then []
    else if Occurs(h, needle, p) then [p] + Leftmost(h, needle, p + |needle|)
    else Leftmost(h, needle, p + 1)
  }

  /** h from position c on with n bytes at each hit replaced. */
  ghost function Spliced(h: Bytes, c: nat, hits: seq<nat>, n: nat, rep: Bytes): Bytes
    requires c <= |h| && SpansFrom(h, c, hits, n)
    decreases |hits|
  {
    if hits == [] then h[c..]
    else h[c..hits[0]] + rep + Spliced(h, hits[0] + n, hits[1..], n, rep)
  }

  /** The spans of n bytes at the hits lie in h, in order and disjoint, from position c on. */
  ghost predicate SpansFrom(h: Bytes, c: nat, hits: seq<nat>, n: nat)
    decreases |hits|
  {
    hits == [] || (c <= hits[0] && hits[0] + n <= |h| && SpansFrom(h, hits[0] + n, hits[1..], n))
  }

  /** Every hit of the scan is a real occurrence; hits are disjoint and in order. */
  lemma {:induction false} HitsAreOccurrences(h: Bytes, needle: Bytes, p: nat, m: nat)
    requires m < |needle| && m <= p <= |h| && h[p - m..p] == needle[..m]
    ensures SpansFrom(h, p - m, Hits(h, needle, p, m), |needle|)
    ensures forall i :: 0 <= i < |Hits(h, needle, p, m)| ==> Occurs(h, needle, Hits(h, needle, p, m)[i])
    decreases |h| - p, m
  {
    if p < |h| {
      if h[p] == needle[m] {
        OneMoreByte(h, needle, p, m);
        if m + 1 == |needle| {
          HitsAreOccurrences(h, needle, p + 1, 0);
        } else {
          HitsAreOccurrences(h, needle, p + 1, m + 1);
        }
      } else {
        assert h[p..p] == needle[..0] && h[p + 1..p + 1] == needle[..0];
        if m > 0 {
          HitsAreOccurrences(h, needle, p, 0);
          SpansEarlier(h, p - m, p, Hits(h, needle, p, 0), |needle|);
        } else {
          HitsAreOccurrences(h, needle, p + 1, 0);
          SpansEarlier(h, p, p + 1, Hits(h, needle, p + 1, 0), |needle|);
        }
      }
    }
  }

  lemma SpansEarlier(h: Bytes, c: nat, d: nat, hits: seq<nat>, n: nat)
    requires c <= d && SpansFrom(h, d, hits, n)
    ensures SpansFrom(h, c, hits, n)
  {
  }

  /** The length changes by the difference of the two lengths, once per hit. */
  lemma {:induction false} SplicedLength(h: Bytes, c: nat, hits: seq<nat>, n: nat, rep: Bytes)
    requires c <= |h| && SpansFrom(h, c, hits, n)
    ensures |Spliced(h, c, hits, n, rep)| == |h| - c + |hits| * (|rep| - n)
    decreases |hits|
  {
    if hits != [] {
      SplicedLength(h, hits[0] + n, hits[1..], n, rep);
      var k, d := |hits| - 1, |rep| - n;
      assert (k + 1) * d == k * d + d;
    }
  }

  /** Where everything goes: what lies before hit k, and the replacement for that hit, have moved by the difference
      of the two lengths for each hit before; so has, for all hits, what lies behind the last one. */
  lemma SplicedPlaces(h: Bytes, hits: seq<nat>, n: nat, rep: Bytes, k: nat, shift: int)
    requires SpansFrom(h, 0, hits, n) && k <= |hits| && shift == k * (|rep| - n)
    ensures var from, to := if k == 0 then 0 else hits[k - 1] + n, if k == |hits| then |h| else hits[k];
      var t := Spliced(h, 0, hits, n, rep);
      && 0 <= from <= to <= |h| && StandsAt(t, from + shift, h[from..to])
      && if k == |hits| then to + shift == |t| else StandsAt(t, to + shift, rep)
  {
    TimesIsProduct(k, |rep| - n);
    SplicedPlacesAt(h, hits, n, rep, k, if k == 0 then 0 else hits[k - 1] + n, shift);
  }

  lemma SplicedPlacesAt(h: Bytes, hits: seq<nat>, n: nat, rep: Bytes, k: nat, from: nat, shift: int)
    requires SpansFrom(h, 0, hits, n) && k <= |hits| && shift == Times(k, |rep| - n)
    requires from == if k == 0 then 0 else hits[k - 1] + n
    ensures var to, t := if k == |hits| then |h| else hits[k], Spliced(h, 0, hits, n, rep);
      && from <= to <= |h| && StandsAt(t, from + shift, h[from..to])
      && if k == |hits| then to + shift == |t| else StandsAt(t, to + shift, rep)
  {
    var front := SplicedFront(h, hits, n, rep, k);
    var to := if k == |hits| then |h| else hits[k];
    var rest := Spliced(h, from, hits[k..], n, rep);
    FirstPlaces(h, from, hits[k..], n, rep);
    StandsBehind(front, rest, 0, h[from..to]);
    if k < |hits| {
      StandsBehind(front, rest, to - from, rep);
    }
  }

  /** What comes before the end of hit number k - 1. */
  lemma {:induction false} SplicedFront(h: Bytes, hits: seq<nat>, n: nat, rep: Bytes, k: nat) returns (front: Bytes)
    requires SpansFrom(h, 0, hits, n) && k <= |hits|
    ensures var from := if k == 0 then 0 else hits[k - 1] + n;
      && from <= |h| && SpansFrom(h, from, hits[k..], n) && |front| == from + Times(k, |rep| - n)
      && Spliced(h, 0, hits, n, rep) == front + Spliced(h, from, hits[k..], n, rep)
    decreases k
  {
    if k == 0 {
      front := [];
      assert hits[0..] == hits;
    } else {
      front := SplicedFront(h, hits, n, rep, k - 1);
      var from, rest := if k == 1 then 0 else hits[k - 2] + n, hits[k - 1..];
      assert rest[0] == hits[k - 1] && rest[1..] == hits[k..];
      SplicedNext(front, h, from, rest, n, rep);
      front := front + (h[from..rest[0]] + rep);
    }
  }

  lemma SplicedNext(front: Bytes, h: Bytes, c: nat, hits: seq<nat>, n: nat, rep: Bytes)
    requires c <= |h| && hits != [] && SpansFrom(h, c, hits, n)
    ensures front + Spliced(h, c, hits, n, rep)
         == (front + (h[c..hits[0]] + rep)) + Spliced(h, hits[0] + n, hits[1..], n, rep)
  {
    Associative(front, h[c..hits[0]] + rep, Spliced(h, hits[0] + n, hits[1..], n, rep));
  }

  lemma FirstPlaces(h: Bytes, c: nat, hits: seq<nat>, n: nat, rep: Bytes)
    requires c <= |h| && SpansFrom(h, c, hits, n)
    ensures var to, t := if hits == [] then |h| else hits[0], Spliced(h, c, hits, n, rep);
      StandsAt(t, 0, h[c..to]) && if hits == [] then to - c == |t| else StandsAt(t, to - c, rep)
  {
    if hits == [] {
      assert h[c..][0..|h| - c] == h[c..|h|];
    } else {
      var a, rest := h[c..hits[0]], Spliced(h, hits[0] + n, hits[1..], n, rep);
      StandsBetween(a, rep, rest);
      StandsBetween([], a, rep + rest);
      assert [] + a + (rep + rest) == a + rep + rest;
    }
  }

  function Piece(s: Bytes): seq<Bytes> {
    if s == [] then [] else [s]
  }

  /** The fragments that replacement makes: what lies between the hits, and the replacements. */
  ghost function Pieces(h: Bytes, c: nat, hits: seq<nat>, n: nat, rep: Bytes): seq<Bytes>
    requires c <= |h| && SpansFrom(h, c, hits, n)
    decreases |hits|
  {
    if hits == [] then Piece(h[c..])
    else (Piece(h[c..hits[0]]) + Piece(rep)) + Pieces(h, hits[0] + n, hits[1..], n, rep)
  }

  lemma {:induction false} PiecesMakeSpliced(h: Bytes, c: nat, hits: seq<nat>, n: nat, rep: Bytes)
    requires c <= |h| && SpansFrom(h, c, hits, n)
    ensures Flatten(Pieces(h, c, hits, n, rep)) == Spliced(h, c, hits, n, rep)
    decreases |hits|
  {
    if hits == [] {
      FlattenPiece(h[c..]);
    } else {
      var rest := Pieces(h, hits[0] + n, hits[1..], n, rep);
      PiecesMakeSpliced(h, hits[0] + n, hits[1..], n, rep);
      FlattenPiece(h[c..hits[0]]);
      FlattenPiece(rep);
      FlattenConcat(Piece(h[c..hits[0]]), Piece(rep));
      FlattenConcat(Piece(h[c..hits[0]]) + Piece(rep), rest);
    }
  }

  lemma FlattenPiece(s: Bytes)
    ensures Flatten(Piece(s)) == s
  {
    if s != [] {
      FlattenOne(s);
    }
  }

  /** The same fragments in the order in which the scan, at position p with m bytes matched, finds
      them; c is the end of the last hit. */
  ghost function Rebuilt(h: Bytes, needle: Bytes, p: nat, m: nat, c: nat, rep: Bytes): seq<Bytes>
    requires m < |needle| && c + m <= p <= |h|
    decreases |h| - p, m
  {
    if p == |h| then Piece(h[c..])
    else if h[p] == needle[m] then
      if m + 1 == |needle| then (Piece(h[c..p - m]) + Piece(rep)) + Rebuilt(h, needle, p + 1, 0, p + 1, rep)
      else Rebuilt(h, needle, p + 1, m + 1, c, rep)
    else if m > 0 then Rebuilt(h, needle, p, 0, c, rep)
    else Rebuilt(h, needle, p + 1, 0, c, rep)
  }

  /** What the scan still finds from p with m bytes matched, it finds in the step to p' and m' or after it. */
  ghost predicate StepFrom(h: Bytes, needle: Bytes, p: nat, m: nat, c: nat, rep: Bytes, p': nat, m': nat)
    requires m < |needle| && c + m <= p < |h| && c + m' <= p' <= |h| && m' <= |needle|
  {
    if m' < |needle| then
      && Rebuilt(h, needle, p, m, c, rep) == Rebuilt(h, needle, p', m', c, rep)
      && Hits(h, needle, p, m) == Hits(h, needle, p', m')
    else
      && Rebuilt(h, needle, p, m, c, rep)
         == (Piece(h[c..p' - |needle|]) + Piece(rep)) + Rebuilt(h, needle, p', 0, p', rep)
      && |Hits(h, needle, p, m)| == 1 + |Hits(h, needle, p', 0)|
  }

  lemma RebuiltStep(h: Bytes, needle: Bytes, p: nat, m: nat, c: nat, rep: Bytes, p': nat, m': nat)
    requires m < |needle| && c + m <= p < |h|
    requires p' == (if h[p] == needle[m] || m == 0 then p + 1 else p) && m' == if h[p] == needle[m] then m + 1 else 0
    ensures c + m' <= p' <= |h| && StepFrom(h, needle, p, m, c, rep, p', m')
  {
  }

  lemma {:induction false} RebuiltIsPieces(h: Bytes, needle: Bytes, p: nat, m: nat, c: nat, rep: Bytes)
    requires m < |needle| && c + m <= p <= |h| && h[p - m..p] == needle[..m]
    ensures SpansFrom(h, c, Hits(h, needle, p, m), |needle|)
    ensures Rebuilt(h, needle, p, m, c, rep) == Pieces(h, c, Hits(h, needle, p, m), |needle|, rep)
    decreases |h| - p, m
  {
    HitsAreOccurrences(h, needle, p, m);
    SpansEarlier(h, c, p - m, Hits(h, needle, p, m), |needle|);
    if p < |h| {
      var matches := h[p] == needle[m];
      if matches {
        OneMoreByte(h, needle, p, m);
      }
      var p', m' := if matches || m == 0 then p + 1 else p, if matches then m + 1 else 0;
      RebuiltStep(h, needle, p, m, c, rep, p', m');
      assert h[p'..p'] == needle[..0];
      if m' == |needle| {
        RebuiltIsPieces(h, needle, p', 0, p', rep);
        PiecesAtHit(h, needle, p, m, c, rep);
      } else {
        RebuiltIsPieces(h, needle, p', m', c, rep);
      }
    }
  }

  lemma PiecesAtHit(h: Bytes, needle: Bytes, p: nat, m: nat, c: nat, rep: Bytes)
    requires m + 1 == |needle| && c + m <= p < |h| && h[p] == needle[m]
    requires SpansFrom(h, c, Hits(h, needle, p, m), |needle|)
          && SpansFrom(h, p + 1, Hits(h, needle, p + 1, 0), |needle|)
    ensures Pieces(h, c, Hits(h, needle, p, m), |needle|, rep)
         == (Piece(h[c..p - m]) + Piece(rep)) + Pieces(h, p + 1, Hits(h, needle, p + 1, 0), |needle|, rep)
  {
    assert Hits(h, needle, p, m)[1..] == Hits(h, needle, p + 1, 0);
  }

  // ----- when the scan finds every occurrence

  /** Wherever the first byte of the needle recurs in it, the rest of the needle is a prefix of it. */
  ghost predicate RecurrencesAreBorders(needle: Bytes) {
    forall j {:trigger needle[j]} :: 0 < j < |needle| && needle[j] == needle[0]
      ==> needle[j..] == needle[..|needle| - j]
  }

  /** An occurrence that starts inside a partial match predicts the byte that the match needs next;
      so nothing that the scan skips when it falls back was an occurrence. */
  lemma OccurrenceInside(h: Bytes, needle: Bytes, p: nat, m: nat, q: nat)
    requires RecurrencesAreBorders(needle) && m < |needle| && m <= p < |h| && h[p - m..p] == needle[..m]
    requires p - m <= q < p && Occurs(h, needle, q)
    ensures h[p] == needle[m]
  {
    var j := q - (p - m);
    assert h[q..q + |needle|][p - q] == needle[p - q];
    if j > 0 {
      assert h[p - m..p][j] == needle[..m][j];
      FirstByteOccurs(h, needle, q);
      assert needle[j..][m - j] == needle[..|needle| - j][m - j];
    }
  }

  /** If so, the scan finds exactly the leftmost non-overlapping occurrences. */
  lemma {:induction false} ScanIsLeftmost(h: Bytes, needle: Bytes, p: nat, m: nat)
    requires RecurrencesAreBorders(needle) && m < |needle| && m <= p <= |h| && h[p - m..p] == needle[..m]
    ensures Hits(h, needle, p, m) == Leftmost(h, needle, p - m)
    decreases |h| - p, m
  {
    if p == |h| {
      NoRoom(h, needle, p - m);
    } else if h[p] == needle[m] {
      OneMoreByte(h, needle, p, m);
      if m + 1 == |needle| {
        ScanIsLeftmost(h, needle, p + 1, 0);
        LeftmostHit(h, needle, p, m);
      } else {
        ScanIsLeftmost(h, needle, p + 1, m + 1);
        assert Hits(h, needle, p + 1, m + 1) == Leftmost(h, needle, p - m);
        LeftmostMatch(h, needle, p, m);
      }
    } else {
      var next := if m > 0 then p else p + 1;
      assert h[next..next] == needle[..0];
      ScanIsLeftmost(h, needle, next, 0);
      ScanMissed(h, needle, p, m, next);
    }
  }

  lemma ScanMissed(h: Bytes, needle: Bytes, p: nat, m: nat, next: nat)
    requires RecurrencesAreBorders(needle) && m < |needle| && m <= p < |h| && h[p - m..p] == needle[..m]
    requires h[p] != needle[m] && next == if m > 0 then p else p + 1
    requires Hits(h, needle, next, 0) == Leftmost(h, needle, next)
    ensures Hits(h, needle, p, m) == Leftmost(h, needle, p - m)
  {
    NothingSkipped(h, needle, p, m, next);
    LeftmostMiss(h, needle, p, m, next);
  }

  lemma LeftmostHit(h: Bytes, needle: Bytes, p: nat, m: nat)
    requires m + 1 == |needle| && m <= p < |h| && h[p] == needle[m] && Occurs(h, needle, p - m)
    requires Hits(h, needle, p + 1, 0) == Leftmost(h, needle, p + 1)
    ensures Hits(h, needle, p, m) == Leftmost(h, needle, p - m)
  {
  }

  lemma LeftmostMatch(h: Bytes, needle: Bytes, p: nat, m: nat)
    requires m + 1 < |needle| && m <= p < |h| && h[p] == needle[m]
    requires Hits(h, needle, p + 1, m + 1) == Leftmost(h, needle, p - m)
    ensures Hits(h, needle, p, m) == Leftmost(h, needle, p - m)
  {
  }

  lemma LeftmostMiss(h: Bytes, needle: Bytes, p: nat, m: nat, next: nat)
    requires m < |needle| && m <= p < |h| && h[p] != needle[m] && next == if m > 0 then p else p + 1
    requires Hits(h, needle, next, 0) == Leftmost(h, needle, next) == Leftmost(h, needle, p - m)
    ensures Hits(h, needle, p, m) == Leftmost(h, needle, p - m)
  {
  }

  lemma OneMoreByte(h: Bytes, needle: Bytes, p: nat, m: nat)
    requires m < |needle| && m <= p < |h| && h[p - m..p] == needle[..m] && h[p] == needle[m]
    ensures h[p - m..p + 1] == needle[..m + 1] && h[p + 1..p + 1] == needle[..0]
    ensures m + 1 == |needle| ==> Occurs(h, needle, p - m)
  {
    assert h[p - m..p + 1] == h[p - m..p] + [h[p]];
    assert needle[..m + 1] == needle[..m] + [needle[m]];
  }

  lemma FirstByteOccurs(h: Bytes, needle: Bytes, q: nat)
    requires needle != []
    ensures Occurs(h, needle, q) ==> h[q] == needle[0]
  {
    if Occurs(h, needle, q) {
      assert h[q..q + |needle|][0] == needle[0];
    }
  }

  lemma NothingSkipped(h: Bytes, needle: Bytes, p: nat, m: nat, next: nat)
    requires RecurrencesAreBorders(needle) && m < |needle| && m <= p < |h| && h[p - m..p] == needle[..m]
    requires h[p] != needle[m] && next == if m > 0 then p else p + 1
    ensures Leftmost(h, needle, p - m) == Leftmost(h, needle, next) && h[next..next] == needle[..0]
  {
    forall q | p - m <= q < next ensures !Occurs(h, needle, q) {
      if m > 0 {
        if Occurs(h, needle, q) {
          OccurrenceInside(h, needle, p, m, q);
        }
      } else {
        FirstByteOccurs(h, needle, q);
      }
    }
    SkipTo(h, needle, p - m, next);
  }

  lemma {:induction false} NoRoom(h: Bytes, needle: Bytes, p: nat)
    requires needle != [] && p + |needle| > |h|
    ensures Leftmost(h, needle, p) == []
  {
  }

  lemma {:induction false} SkipTo(h: Bytes, needle: Bytes, p: nat, q: nat)
    requires needle != [] && p <= q <= |h| && forall i :: p <= i < q ==> !Occurs(h, needle, i)
    ensures Leftmost(h, needle, p) == Leftmost(h, needle, q)
    decreases q - p
  {
    if p < q {
      SkipTo(h, needle, p + 1, q);
      if p + |needle| > |h| {
        NoRoom(h, needle, p + 1);
      }
    }
  }

  /** How far needle[j..] agrees with the needle itself. */
  ghost function Agreement(needle: Bytes, j: nat, m: nat): (e: nat)
    requires j <= m <= |needle| && needle[j..m] == needle[..m - j]
    ensures m <= e <= |needle| && needle[j..e] == needle[..e - j]
    ensures e < |needle| ==> needle[e] != needle[e - j]
    decreases |needle| - m
  {
    if m < |needle| && needle[m] == needle[m - j] then
      assert needle[j..m + 1] == needle[j..m] + [needle[m]];
      assert needle[..m + 1 - j] == needle[..m - j] + [needle[m - j]];
      Agreement(needle, j, m + 1)
    else m
  }

  /** While the input agrees with the needle the scan goes on matching. */
  lemma {:induction false} ScanAlong(h: Bytes, needle: Bytes, p: nat, m: nat, e: nat)
    requires m <= p && m <= e < |needle| && p + (e - m) <= |h| && h[p..p + (e - m)] == needle[m..e]
    ensures Hits(h, needle, p, m) == Hits(h, needle, p + (e - m), e)
    decreases e - m
  {
    if m < e {
      assert h[p] == h[p..p + (e - m)][0] == needle[m..e][0] == needle[m];
      assert h[p + 1..p + 1 + (e - (m + 1))] == h[p..p + (e - m)][1..] == needle[m..e][1..] == needle[m + 1..e];
      ScanAlong(h, needle, p + 1, m + 1, e);
    }
  }

  /** Otherwise there is a string in which the scan misses an occurrence: the start of the needle
      up to the recurrence, followed by the needle. */
  lemma MissedOccurrence(needle: Bytes) returns (h: Bytes)
    requires needle != [] && !RecurrencesAreBorders(needle)
    ensures Hits(h, needle, 0, 0) != Leftmost(h, needle, 0)
  {
    var j :| 0 < j < |needle| && needle[j] == needle[0] && needle[j..] != needle[..|needle| - j];
    assert needle[j..j + 1] == needle[..1];
    var e := Agreement(needle, j, j + 1);
    assert needle[j..|needle|] == needle[j..];
    h := needle[..j] + needle;
    FailsInside(needle, j, e, h);
    assert h[j..j + |needle|] == needle;
    assert Occurs(h, needle, j);
    var first := FirstOccurrence(h, needle, 0, j);
  }

  /** The scan matches e bytes and then fails at position e, inside the occurrence at j; too little is
      left for another hit. */
  lemma FailsInside(needle: Bytes, j: nat, e: nat, h: Bytes)
    requires 0 < j < e < |needle| && needle[j..e] == needle[..e - j] && needle[e] != needle[e - j]
    requires h == needle[..j] + needle
    ensures Hits(h, needle, 0, 0) == []
  {
    assert h[0..0 + (e - 0)] == needle[0..e] by {
      assert needle[..e] == needle[..j] + needle[j..e];
      assert h[..e] == needle[..j] + needle[..e - j];
    }
    ScanAlong(h, needle, 0, 0, e);
    assert h[e] == needle[e - j];
    assert h[e..e] == needle[..0];
    HitsAreOccurrences(h, needle, e, 0);
  }

  /** If there is an occurrence, the leftmost one comes no later. */
  lemma {:induction false} FirstOccurrence(h: Bytes, needle: Bytes, p: nat, q: nat) returns (first: nat)
    requires needle != [] && p <= q && Occurs(h, needle, q)
    ensures Leftmost(h, needle, p) != [] && Leftmost(h, needle, p)[0] == first <= q
    decreases q - p
  {
    if Occurs(h, needle, p) {
      first := p;
    } else {
      first := FirstOccurrence(h, needle, p + 1, q);
    }
  }

  /** The scan is leftmost non-overlapping search for all strings exactly when every recurrence of
      the needle's first byte starts a border of the needle. */
  lemma ScanIsExact(needle: Bytes)
    requires needle != []
    ensures (forall h: Bytes :: Hits(h, needle, 0, 0) == Leftmost(h, needle, 0)) <==> RecurrencesAreBorders(needle)
  {
    if RecurrencesAreBorders(needle) {
      forall h: Bytes ensures Hits(h, needle, 0, 0) == Leftmost(h, needle, 0) {
        assert h[0..0] == needle[..0];
        ScanIsLeftmost(h, needle, 0, 0);
      }
    } else {
      var h := MissedOccurrence(needle);
    }
  }
}
