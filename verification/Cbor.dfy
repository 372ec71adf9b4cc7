/** Reading CBOR items (RFC 8949): what the decoder makes of a string of octets, and what the items of
    sections 3 and 3.1 look like as octets. */
module Cbor {
  import opened Basics

  type Octet = x: nat | x < 256
  type Octets = seq<Octet>

  /** A decoded value with the type that the decoder gives it. */
  datatype Leaf =
    | Unsigned(bits: nat, number: nat)
    | Signed(bits: nat, value: int)
    | Raw(bytes: Octets)
    | Text(chars: Octets)
    | Truth(truth: bool)
    | Nothing
    | Float(bits: nat, pattern: nat)

  /** A chain of values, if there is one, and the position behind what was consumed. */
  datatype Parsed = Parsed(leaves: Option<seq<Leaf>>, next: nat)

  // ----- the head of an item

  /** The octet at a position; zero past the end. */
  function OctetAt(s: Octets, i: nat): Octet {
    if i < |s| then s[i] else 0
  }

  function BigEndian(s: Octets): nat {
    if s == [] then 0 else BigEndian(s[..|s| - 1]) * 256 + s[|s| - 1]
  }

  function Power256(n: nat): (p: nat)
    ensures p > 0
  {
    if n == 0 then 1 else 256 * Power256(n - 1)
  }

  /** How many octets of argument follow the initial octet. */
  function Width(minor: nat): nat {
    if minor == 24 then 1 else if minor == 25 then 2 else if minor == 26 then 4 else if minor == 27 then 8 else 0
  }

  /** The argument of a head whose initial octet is at position i, and the position behind the head. */
  function Argument(s: Octets, i: nat, minor: nat): Option<(nat, nat)> {
    var w := Width(minor);
    if w == 0 then Some((if minor < 24 then minor else 0, i + 1))
    else if i + 1 + w <= |s| then Some((BigEndian(s[i + 1..i + 1 + w]), i + 1 + w))
    else None
  }

  // ----- one item

  /** A negative integer is computed in the narrowest type that the decoder has for its width. */
  function Negative(minor: nat, arg: nat): Leaf {
    if minor < 24 then Signed(8, -1 - minor)
    else if minor == 24 then if arg <= 0x7F then Signed(8, -1 - arg) else Signed(16, -1 - arg)
    else if minor == 25 then if arg < 0x7FFF then Signed(16, -1 - arg) else Signed(32, -1 - arg)
    else if minor == 26 then if arg < P31 then Signed(32, -1 - arg) else Signed(64, -1 - arg)
    else Signed(64, AsSigned64((-1 - arg) % P64))
  }

  function AsSigned64(x: nat): int {
    if x < P63 then x else x - P64
  }

  /** What a C string keeps of an array of octets. */
  function BeforeNul(s: Octets): Octets {
    if s == [] || s[0] == 0 then [] else [s[0]] + BeforeNul(s[1..])
  }

  function Remaining(s: Octets, i: nat): nat {
    if i < |s| then |s| - i else 0
  }

  /** One item at position i.  Maps and tags are not read. */
  function Item(s: Octets, i: nat): (r: Parsed)
    ensures r.leaves.Some? ==> r.next > i
    decreases Remaining(s, i), 2, 0
  {
    var first := OctetAt(s, i);
    if s == [] then Parsed(None, i)
    else
      match Argument(s, i, first % 32)
      case None => Parsed(None, i)
      case Some((arg, body)) => Content(s, i, first / 32, first % 32, arg, body)
  }

  /** What the head of an item announces. */
  function Content(s: Octets, i: nat, major: nat, minor: nat, arg: nat, body: nat): (r: Parsed)
    requires i < body && (major == 4 ==> i < |s|)
    ensures r.leaves.Some? ==> r.next > i
    decreases Remaining(s, i), 1, 0
  {
    var length := arg % P32;
    var enough := arg > 0 && body + length <= |s|;
    if major == 0 then
      if minor < 28 then Parsed(Some([Unsigned(if minor < 24 then 8 else 8 * Width(minor), arg)]), body)
      else Parsed(None, i)
    else if major == 1 then
      if minor < 28 then Parsed(Some([Negative(minor, arg)]), body) else Parsed(None, i)
    else if major == 2 then
      if enough then Parsed(Some([Raw(s[body..body + length])]), body + length) else Parsed(None, i)
    else if major == 3 then
      if enough then Parsed(Some([Text(BeforeNul(s[body..body + length]))]), body + length) else Parsed(None, i)
    else if major == 4 then
      var r := Items(s, body, length);
      if r.leaves.Some? && r.leaves.value != [] then r else Parsed(None, i)
    else if major == 7 then Special(minor, arg, i, body, enough)
    else Parsed(None, i)
  }

  /** Simple values and floating point numbers; what is not understood is passed over. */
  function Special(minor: nat, arg: nat, i: nat, body: nat, enough: bool): Parsed {
    if minor == 20 || minor == 21 then Parsed(Some([Truth(minor == 21)]), body)
    else if minor == 22 || minor == 23 then Parsed(Some([Nothing]), body)
    else if minor == 24 || minor == 25 then Parsed(None, if enough then body else i)
    else if minor == 26 then Parsed(Some([Float(32, arg)]), body)
    else if minor == 27 then Parsed(Some([Float(64, arg)]), body)
    else Parsed(None, body)
  }

  /** As many items as are counted, as one chain; none if one of them cannot be read. */
  function Items(s: Octets, i: nat, count: nat): (r: Parsed)
    ensures r.leaves.Some? ==> r.next >= i
    decreases Remaining(s, i), 3, count
  {
    if count == 0 then Parsed(Some([]), i)
    else
      var head := Item(s, i);
      if head.leaves.None? then Parsed(None, i)
      else
        var rest := Items(s, head.next, count - 1);
        if rest.leaves.None? then Parsed(None, i)
        else Parsed(Some(head.leaves.value + rest.leaves.value), rest.next)
  }

  // ----- well-formed items

  /** An item of the supported kinds; width is the number of octets that carry its argument, 0 if the
      initial octet does.  Floating-point numbers of 32 and 64 bits are their bit patterns. */
  datatype Tree =
    | UInt(width: nat, arg: nat)
    | NInt(width: nat, arg: nat)
    | ByteString(width: nat, bytes: Octets)
    | TextString(width: nat, chars: Octets)
    | List(width: nat, items: seq<Tree>)
    | Bool(truth: bool)
    | Null
    | Real(width: nat, pattern: nat)

  ghost predicate Fits(w: nat, arg: nat) {
    if w == 0 then arg < 24 else (w == 1 || w == 2 || w == 4 || w == 8) && arg < Power256(w)
  }

  ghost predicate WellFormed(t: Tree) {
    match t
    case UInt(w, arg) => Fits(w, arg)
    case NInt(w, arg) => Fits(w, arg) && arg < P63
    case ByteString(w, b) => Fits(w, |b|) && 0 < |b| < P31
    case TextString(w, c) => Fits(w, |c|) && 0 < |c| < P31 && 0 !in c
    case List(w, ts) => Fits(w, |ts|) && 0 < |ts| < P32 && forall i :: 0 <= i < |ts| ==> WellFormed(ts[i])
    case Bool(_) => true
    case Null => true
    case Real(w, pattern) => (w == 4 || w == 8) && Fits(w, pattern)
  }

  function ToBigEndian(x: nat, w: nat): (s: Octets)
    ensures |s| == w
  {
    if w == 0 then [] else ToBigEndian(x / 256, w - 1) + [x % 256]
  }

  function MinorOf(w: nat, arg: nat): nat {
    if w == 0 then arg else if w == 1 then 24 else if w == 2 then 25 else if w == 4 then 26 else 27
  }

  function Head(major: nat, w: nat, arg: nat): (s: Octets)
    requires major < 8 && (w == 0 ==> arg < 24)
    ensures |s| == 1 + w
  {
    [32 * major + MinorOf(w, arg)] + ToBigEndian(arg, w)
  }

  ghost function Encode(t: Tree): (s: Octets)
    requires WellFormed(t)
    ensures s != []
    decreases t, 0
  {
    match t
    case UInt(w, arg) => Head(0, w, arg)
    case NInt(w, arg) => Head(1, w, arg)
    case ByteString(w, b) => Head(2, w, |b|) + b
    case TextString(w, c) => Head(3, w, |c|) + c
    case List(w, ts) => Head(4, w, |ts|) + EncodeAll(ts)
    case Bool(b) => [if b then 245 else 244]
    case Null => [246]
    case Real(w, pattern) => Head(7, w, pattern)
  }

  ghost function EncodeAll(ts: seq<Tree>): Octets
    requires forall i :: 0 <= i < |ts| ==> WellFormed(ts[i])
    decreases ts, 1
  {
    if ts == [] then [] else Encode(ts[0]) + EncodeAll(ts[1..])
  }

  // ----- what an item means

  /** The leaves of an item, in order: lists are flattened. */
  ghost function Leaves(t: Tree): seq<Leaf>
    decreases t, 0
  {
    match t
    case UInt(w, arg) => [Unsigned(if w == 0 then 8 else 8 * w, arg)]
    case NInt(w, arg) => [Signed(SignedBits(w, arg), -1 - arg)]
    case ByteString(w, b) => [Raw(b)]
    case TextString(w, c) => [Text(c)]
    case List(w, ts) => LeavesAll(ts)
    case Bool(b) => [Truth(b)]
    case Null => [Nothing]
    case Real(w, pattern) => [Float(8 * w, pattern)]
  }

  ghost function LeavesAll(ts: seq<Tree>): seq<Leaf>
    decreases ts, 1
  {
    if ts == [] then [] else Leaves(ts[0]) + LeavesAll(ts[1..])
  }

  /** The type that holds -1 - arg; one bit more than needed for the smallest 16-bit number. */
  function SignedBits(w: nat, arg: nat): nat {
    if w == 0 || (w == 1 && arg < 0x80) then 8
    else if w == 1 || (w == 2 && arg < 0x7FFF) then 16
    else if w == 2 || (w == 4 && arg < P31) then 32
    else 64
  }

  // ----- reading back

  ghost predicate Stands(s: Octets, i: nat, e: Octets) {
    i + |e| <= |s| && s[i..i + |e|] == e
  }

  lemma StandsSplit(s: Octets, i: nat, a: Octets, b: Octets)
    requires Stands(s, i, a + b)
    ensures Stands(s, i, a) && Stands(s, i + |a|, b)
  {
    assert s[i..i + |a|] == s[i..i + |a + b|][..|a|] == (a + b)[..|a|];
    assert s[i + |a|..i + |a| + |b|] == s[i..i + |a + b|][|a|..] == (a + b)[|a|..];
  }

  lemma {:induction false} BigEndianBack(x: nat, w: nat)
    requires x < Power256(w)
    ensures BigEndian(ToBigEndian(x, w)) == x
  {
    if w != 0 {
      QuotientBound(x, Power256(w - 1));
      BigEndianBack(x / 256, w - 1);
      BigEndianAppend(ToBigEndian(x / 256, w - 1), x % 256);
    }
  }

  lemma BigEndianAppend(s: Octets, o: Octet)
    ensures BigEndian(s + [o]) == BigEndian(s) * 256 + o
  {
    assert (s + [o])[..|s|] == s;
  }

  lemma QuotientBound(x: nat, p: nat)
    requires x < 256 * p
    ensures x / 256 < p && x == 256 * (x / 256) + x % 256
  {
  }

  lemma HeadReads(s: Octets, i: nat, major: nat, w: nat, arg: nat)
    requires major < 8 && Fits(w, arg) && Stands(s, i, Head(major, w, arg))
    ensures i < |s| && OctetAt(s, i) / 32 == major && OctetAt(s, i) % 32 == MinorOf(w, arg)
    ensures Item(s, i) == Content(s, i, major, MinorOf(w, arg), arg, i + 1 + w)
  {
    var first := 32 * major + MinorOf(w, arg);
    StandsSplit(s, i, [first], ToBigEndian(arg, w));
    assert s[i] == s[i..i + 1][0] == first;
    if w > 0 {
      BigEndianBack(arg, w);
    }
  }

  lemma {:induction false} NoNul(c: Octets)
    requires 0 !in c
    ensures BeforeNul(c) == c
  {
    if c != [] {
      NoNul(c[1..]);
    }
  }

  /** Every negative integer is read with its argument, whatever its head width; its value is right
      exactly if the argument is below 2 to the 63, and otherwise 2 to the 64 too large. */
  lemma NegativeExact(s: Octets, i: nat, w: nat, arg: nat)
    requires Fits(w, arg) && Stands(s, i, Head(1, w, arg))
    ensures Item(s, i) ==
      Parsed(Some([Signed(SignedBits(w, arg), if arg < P63 then -1 - arg else P64 - 1 - arg)]), i + 1 + w)
  {
    HeadReads(s, i, 1, w, arg);
    PowersOf256();
    if w == 8 {
      NegativeWraps(arg);
    }
  }

  lemma PowersOf256()
    ensures Power256(1) == 256 && Power256(2) == P16 && Power256(4) == P32 && Power256(8) == P64
  {
    assert Power256(3) == 256 * Power256(2);
    assert Power256(5) == 256 * Power256(4);
    assert Power256(6) == 256 * Power256(5);
    assert Power256(7) == 256 * Power256(6);
  }

  lemma NegativeWraps(arg: nat)
    requires arg < P64
    ensures (-1 - arg) % P64 == P64 - 1 - arg
  {
  }

  lemma UIntReads(s: Octets, i: nat, w: nat, arg: nat)
    requires Fits(w, arg) && Stands(s, i, Head(0, w, arg))
    ensures Item(s, i) == Parsed(Some([Unsigned(if w == 0 then 8 else 8 * w, arg)]), i + 1 + w)
  {
    HeadReads(s, i, 0, w, arg);
  }

  lemma StringContent(s: Octets, i: nat, major: nat, minor: nat, n: nat, body: nat)
    requires (major == 2 || major == 3) && i < body && 0 < n < P31 && body + n <= |s|
    ensures var b := s[body..body + n];
      Content(s, i, major, minor, n, body)
      == Parsed(Some([if major == 2 then Raw(b) else Text(BeforeNul(b))]), body + n)
  {
  }

  lemma RawReads(s: Octets, i: nat, w: nat, b: Octets)
    requires Fits(w, |b|) && 0 < |b| < P31 && Stands(s, i, Head(2, w, |b|) + b)
    ensures Item(s, i) == Parsed(Some([Raw(b)]), i + 1 + w + |b|)
  {
    StandsSplit(s, i, Head(2, w, |b|), b);
    HeadReads(s, i, 2, w, |b|);
    StringContent(s, i, 2, MinorOf(w, |b|), |b|, i + 1 + w);
  }

  lemma TextReads(s: Octets, i: nat, w: nat, c: Octets)
    requires Fits(w, |c|) && 0 < |c| < P31 && 0 !in c && Stands(s, i, Head(3, w, |c|) + c)
    ensures Item(s, i) == Parsed(Some([Text(c)]), i + 1 + w + |c|)
  {
    StandsSplit(s, i, Head(3, w, |c|), c);
    HeadReads(s, i, 3, w, |c|);
    StringContent(s, i, 3, MinorOf(w, |c|), |c|, i + 1 + w);
    NoNul(c);
  }

  lemma ListContent(s: Octets, i: nat, minor: nat, n: nat, body: nat, r: Parsed)
    requires i < |s| && i < body && n < P32 && Items(s, body, n) == r && r.leaves.Some? && r.leaves.value != []
    ensures Content(s, i, 4, minor, n, body) == r
  {
  }

  lemma ListReads(s: Octets, i: nat, w: nat, n: nat, r: Parsed)
    requires Fits(w, n) && n < P32 && Stands(s, i, Head(4, w, n)) && Items(s, i + 1 + w, n) == r
    requires r.leaves.Some? && r.leaves.value != []
    ensures Item(s, i) == r
  {
    HeadReads(s, i, 4, w, n);
    ListContent(s, i, MinorOf(w, n), n, i + 1 + w, r);
  }

  lemma SimpleReads(s: Octets, i: nat, x: Octet)
    requires 244 <= x <= 246 && Stands(s, i, [x])
    ensures Item(s, i) == Parsed(Some([if x == 246 then Nothing else Truth(x == 245)]), i + 1)
  {
    assert s[i] == s[i..i + 1][0];
  }

  lemma ScalarReads(s: Octets, i: nat, t: Tree)
    requires WellFormed(t) && !t.List? && Stands(s, i, Encode(t))
    ensures Item(s, i) == Parsed(Some(Leaves(t)), i + |Encode(t)|)
  {
    match t
    case UInt(w, arg) => UIntReads(s, i, w, arg);
    case NInt(w, arg) => NegativeExact(s, i, w, arg);
    case ByteString(w, b) => RawReads(s, i, w, b);
    case TextString(w, c) => TextReads(s, i, w, c);
    case Bool(b) => SimpleReads(s, i, if b then 245 else 244);
    case Null => SimpleReads(s, i, 246);
    case Real(w, pattern) => HeadReads(s, i, 7, w, pattern);
  }

  /** Wherever a well-formed item stands in a string, whatever comes before and after it, it is read
      as its leaves, and exactly its octets are consumed. */
  lemma {:induction false} ItemReads(s: Octets, i: nat, t: Tree)
    requires WellFormed(t) && Stands(s, i, Encode(t))
    ensures Item(s, i) == Parsed(Some(Leaves(t)), i + |Encode(t)|)
    decreases t, 0
  {
    if t.List? {
      var w, ts := t.width, t.items;
      StandsSplit(s, i, Head(4, w, |ts|), EncodeAll(ts));
      ItemsRead(s, i + 1 + w, ts);
      ListReads(s, i, w, |ts|, Items(s, i + 1 + w, |ts|));
    } else {
      ScalarReads(s, i, t);
    }
  }

  lemma {:induction false} ItemsRead(s: Octets, i: nat, ts: seq<Tree>)
    requires (forall k :: 0 <= k < |ts| ==> WellFormed(ts[k])) && Stands(s, i, EncodeAll(ts))
    ensures Items(s, i, |ts|) == Parsed(Some(LeavesAll(ts)), i + |EncodeAll(ts)|)
    ensures ts != [] ==> LeavesAll(ts) != []
    decreases ts, 1
  {
    if ts != [] {
      var e, j := Encode(ts[0]), i + |Encode(ts[0])|;
      StandsSplit(s, i, e, EncodeAll(ts[1..]));
      ItemReads(s, i, ts[0]);
      ItemsRead(s, j, ts[1..]);
      HasLeaves(ts[0]);
      OneMoreItem(s, i, |ts|, Leaves(ts[0]), j, LeavesAll(ts[1..]), j + |EncodeAll(ts[1..])|);
    }
  }

  lemma OneMoreItem(s: Octets, i: nat, count: nat, head: seq<Leaf>, j: nat, rest: seq<Leaf>, k: nat)
    requires count > 0 && Item(s, i) == Parsed(Some(head), j) && Items(s, j, count - 1) == Parsed(Some(rest), k)
    ensures Items(s, i, count) == Parsed(Some(head + rest), k)
  {
  }

  lemma {:induction false} HasLeaves(t: Tree)
    requires WellFormed(t)
    ensures Leaves(t) != []
  {
    if t.List? {
      HasLeaves(t.items[0]);
    }
  }

  // ----- what the machine words allow

  /** Is what the code does to read the item at position i defined?  Positions are passed on as signed
      numbers, and the end of a text is computed with 32 bits before room for the text is made. */
  ghost predicate Defined(s: Octets, i: nat)
    decreases Remaining(s, i), 2, 0
  {
    var first := OctetAt(s, i);
    s == [] || (i < P31 &&
                match Argument(s, i, first % 32)
                case None => true
                case Some((arg, body)) => DefinedContent(s, i, first / 32, arg, body))
  }

  ghost predicate DefinedContent(s: Octets, i: nat, major: nat, arg: nat, body: nat)
    requires i < body && (major == 4 ==> i < |s|)
    decreases Remaining(s, i), 1, 0
  {
    && (major == 3 && arg > 0 ==> body + arg % P32 < P32)
    && (major == 4 ==> DefinedItems(s, body, arg % P32))
  }

  ghost predicate DefinedItems(s: Octets, i: nat, count: nat)
    decreases Remaining(s, i), 3, count
  {
    count == 0 ||
    (Defined(s, i) && (Item(s, i).leaves.Some? ==> DefinedItems(s, Item(s, i).next, count - 1)))
  }

  lemma {:induction false} BigEndianBound(s: Octets)
    ensures BigEndian(s) < Power256(|s|)
  {
    if s != [] {
      BigEndianBound(s[..|s| - 1]);
    }
  }

  lemma ArgumentBound(s: Octets, i: nat, minor: nat)
    requires Argument(s, i, minor).Some? && minor <= 25
    ensures Argument(s, i, minor).value.0 < P16
  {
    PowersOf256();
    var w := Width(minor);
    if w > 0 {
      BigEndianBound(s[i + 1..i + 1 + w]);
    }
  }

  /** The test whether there is as much as the head of a string announces, whose sum may wrap, is right exactly
      if it does not. */
  lemma LengthTestExact(n: nat, body: nat, length: nat)
    requires body <= n < P31 && length < P32
    ensures (Sum32(body, length) <= n <==> body + length <= n) <==> body + length < P32
  {
  }

  lemma HeadDefined(s: Octets, i: nat, major: nat, w: nat, arg: nat)
    requires major < 8 && Fits(w, arg) && Stands(s, i, Head(major, w, arg)) && i < P31
    ensures i < |s| && (Defined(s, i) <==> DefinedContent(s, i, major, arg, i + 1 + w))
  {
    HeadReads(s, i, major, w, arg);
    var first := 32 * major + MinorOf(w, arg);
    StandsSplit(s, i, [first], ToBigEndian(arg, w));
    if w > 0 {
      BigEndianBack(arg, w);
    }
  }

  /** A text is read in a defined way exactly if the end that its head announces is a 32-bit number. */
  lemma TextDefinedExactly(s: Octets, i: nat, w: nat, arg: nat)
    requires Fits(w, arg) && Stands(s, i, Head(3, w, arg)) && i < P31 && arg > 0
    ensures Defined(s, i) <==> i + 1 + w + arg % P32 < P32
  {
    HeadDefined(s, i, 3, w, arg);
  }

  /** Five octets that announce a text of 2 to the 32 less one pass the length test, though nothing follows. */
  lemma LongTextUndefined()
    ensures var s := Head(3, 4, P32 - 1); |s| == 5 && !Defined(s, 0) && Sum32(5, P32 - 1) <= 5
  {
    var s := Head(3, 4, P32 - 1);
    PowersOf256();
    assert s[0..|s|] == s;
    TextDefinedExactly(s, 0, 4, P32 - 1);
  }

  lemma TextDefined(s: Octets, i: nat, w: nat, c: Octets)
    requires Fits(w, |c|) && 0 < |c| < P31 && Stands(s, i, Head(3, w, |c|) + c) && i + 1 + w + |c| <= P31
    ensures Defined(s, i)
  {
    StandsSplit(s, i, Head(3, w, |c|), c);
    TextDefinedExactly(s, i, w, |c|);
  }

  lemma RawDefined(s: Octets, i: nat, w: nat, b: Octets)
    requires Fits(w, |b|) && Stands(s, i, Head(2, w, |b|) + b) && i < P31
    ensures Defined(s, i)
  {
    StandsSplit(s, i, Head(2, w, |b|), b);
    HeadDefined(s, i, 2, w, |b|);
  }

  lemma SimpleDefined(s: Octets, i: nat, x: Octet)
    requires 244 <= x <= 246 && Stands(s, i, [x]) && i < P31
    ensures Defined(s, i)
  {
    assert s[i] == s[i..i + 1][0];
  }

  lemma ScalarDefined(s: Octets, i: nat, t: Tree)
    requires WellFormed(t) && !t.List? && Stands(s, i, Encode(t)) && i + |Encode(t)| <= P31
    ensures Defined(s, i)
  {
    match t
    case UInt(w, arg) => HeadDefined(s, i, 0, w, arg);
    case NInt(w, arg) => HeadDefined(s, i, 1, w, arg);
    case ByteString(w, b) => RawDefined(s, i, w, b);
    case TextString(w, c) => TextDefined(s, i, w, c);
    case Bool(b) => SimpleDefined(s, i, if b then 245 else 244);
    case Null => SimpleDefined(s, i, 246);
    case Real(w, pattern) => HeadDefined(s, i, 7, w, pattern);
  }

  lemma ListDefined(s: Octets, i: nat, w: nat, n: nat)
    requires Fits(w, n) && n < P32 && Stands(s, i, Head(4, w, n)) && i < P31 && DefinedItems(s, i + 1 + w, n)
    ensures Defined(s, i)
  {
    HeadDefined(s, i, 4, w, n);
  }

  /** Well-formed items, wherever they stand, are read in a defined way if they end below 2 to the 31. */
  lemma {:induction false} ItemDefined(s: Octets, i: nat, t: Tree)
    requires WellFormed(t) && Stands(s, i, Encode(t)) && i + |Encode(t)| <= P31
    ensures Defined(s, i)
    decreases t, 0
  {
    if t.List? {
      StandsSplit(s, i, Head(4, t.width, |t.items|), EncodeAll(t.items));
      ItemsDefined(s, i + 1 + t.width, t.items);
      ListDefined(s, i, t.width, |t.items|);
    } else {
      ScalarDefined(s, i, t);
    }
  }

  lemma {:induction false} ItemsDefined(s: Octets, i: nat, ts: seq<Tree>)
    requires (forall k :: 0 <= k < |ts| ==> WellFormed(ts[k])) && Stands(s, i, EncodeAll(ts))
    requires i + |EncodeAll(ts)| <= P31
    ensures DefinedItems(s, i, |ts|)
    decreases ts, 1
  {
    if ts != [] {
      StandsSplit(s, i, Encode(ts[0]), EncodeAll(ts[1..]));
      ItemReads(s, i, ts[0]);
      ItemDefined(s, i, ts[0]);
      ItemsDefined(s, i + |Encode(ts[0])|, ts[1..]);
    }
  }

  /** Nothing that is read in a defined way ends behind 2 to the 31. */
  lemma {:induction false} DefinedNext(s: Octets, i: nat)
    requires Defined(s, i) && |s| < P31 && i <= P31
    ensures Item(s, i).next <= P31
    decreases Remaining(s, i), 2, 0
  {
    var first := OctetAt(s, i);
    if s != [] && Argument(s, i, first % 32).Some? && first / 32 == 4 {
      var (arg, body) := Argument(s, i, first % 32).value;
      DefinedItemsNext(s, body, arg % P32);
    }
  }

  lemma {:induction false} DefinedItemsNext(s: Octets, i: nat, count: nat)
    requires DefinedItems(s, i, count) && |s| < P31 && i <= P31
    ensures Items(s, i, count).next <= P31
    decreases Remaining(s, i), 3, count
  {
    if count != 0 {
      DefinedNext(s, i);
      if Item(s, i).leaves.Some? {
        DefinedItemsNext(s, Item(s, i).next, count - 1);
      }
    }
  }

  // ----- items octet by octet

  /** Arguments of one and of two octets. */
  lemma ShortArguments(s: Octets, i: nat)
    requires i < |s|
    ensures Argument(s, i, 24) == if i + 2 <= |s| then Some((s[i + 1], i + 2)) else None
    ensures Argument(s, i, 25) == if i + 3 <= |s| then Some((256 * (s[i + 1] as int) + s[i + 2], i + 3)) else None
  {
    if i + 2 <= |s| {
      BigEndianAppend([], s[i + 1]);
      assert s[i + 1..i + 2] == [] + [s[i + 1]];
    }
    if i + 3 <= |s| {
      BigEndianAppend([] + [s[i + 1]], s[i + 2]);
      assert s[i + 1..i + 3] == ([] + [s[i + 1]]) + [s[i + 2]];
    }
  }

  /** Short numbers and simple values, by their octets. */
  lemma ShortNumbers(s: Octets, i: nat)
    requires i < |s|
    ensures s[i] < 0x18 ==> Item(s, i) == Parsed(Some([Unsigned(8, s[i])]), i + 1)
    ensures s[i] == 0x18 && i + 2 <= |s| ==> Item(s, i) == Parsed(Some([Unsigned(8, s[i + 1])]), i + 2)
    ensures s[i] == 0x19 && i + 3 <= |s| ==>
      Item(s, i) == Parsed(Some([Unsigned(16, 256 * (s[i + 1] as int) + s[i + 2])]), i + 3)
    ensures 0x20 <= s[i] < 0x38 ==> Item(s, i) == Parsed(Some([Signed(8, 0x1F - s[i] as int)]), i + 1)
    ensures s[i] == 0x38 && i + 2 <= |s| && s[i + 1] < 0x80 ==>
      Item(s, i) == Parsed(Some([Signed(8, -1 - s[i + 1] as int)]), i + 2)
  {
    ShortArguments(s, i);
    assert s[i] / 32 == 0 ==> s[i] % 32 == s[i];
    assert s[i] / 32 == 1 ==> s[i] % 32 == s[i] - 0x20;
  }

  lemma SimpleValues(s: Octets, i: nat)
    requires i < |s|
    ensures s[i] == 0xF4 || s[i] == 0xF5 ==> Item(s, i) == Parsed(Some([Truth(s[i] == 0xF5)]), i + 1)
    ensures s[i] == 0xF6 || s[i] == 0xF7 ==> Item(s, i) == Parsed(Some([Nothing]), i + 1)
    ensures s[i] == 0xFA && i + 5 <= |s| ==> Item(s, i) == Parsed(Some([Float(32, BigEndian(s[i + 1..i + 5]))]), i + 5)
    ensures s[i] == 0xFB && i + 9 <= |s| ==> Item(s, i) == Parsed(Some([Float(64, BigEndian(s[i + 1..i + 9]))]), i + 9)
  {
    assert s[i] / 32 == 7 ==> s[i] % 32 == s[i] - 0xE0;
  }

  /** Strings of fewer than 24 octets, by their octets. */
  lemma ShortStrings(s: Octets, i: nat, n: nat)
    requires 0 < n < 24 && i + 1 + n <= |s|
    ensures s[i] == 0x40 + n ==> Item(s, i) == Parsed(Some([Raw(s[i + 1..i + 1 + n])]), i + 1 + n)
    ensures s[i] == 0x60 + n ==> Item(s, i) == Parsed(Some([Text(BeforeNul(s[i + 1..i + 1 + n]))]), i + 1 + n)
  {
    if s[i] == 0x40 + n {
      assert s[i] / 32 == 2 && s[i] % 32 == n;
      assert Item(s, i) == Content(s, i, 2, n, n, i + 1);
    } else if s[i] == 0x60 + n {
      assert s[i] / 32 == 3 && s[i] % 32 == n;
      assert Item(s, i) == Content(s, i, 3, n, n, i + 1);
    }
  }

  // ----- what is refused

  /** Heads, other than those of maps and tags, that announce nothing the reader knows: reserved ones, unknown simple
      values, half-precision numbers, strings without content, and lists whose count is zero in its low 32 bits. */
  ghost predicate Unknown(major: nat, minor: nat, arg: nat) {
    && major < 8 && major != 5 && major != 6
    && (|| minor >= 28
        || (major == 7 && (minor < 20 || minor == 24 || minor == 25))
        || ((major == 2 || major == 3) && arg == 0)
        || (major == 4 && arg % P32 == 0))
  }

  /** They are never read. */
  lemma UnknownIsRefused(s: Octets, i: nat, arg: nat, body: nat)
    requires i < |s| && Argument(s, i, s[i] % 32) == Some((arg, body)) && Unknown(s[i] / 32, s[i] % 32, arg)
    ensures Item(s, i).leaves == None
  {
    var major, minor := s[i] / 32, s[i] % 32;
    assert Item(s, i) == Content(s, i, major, minor, arg, body);
    assert minor >= 28 ==> arg == 0;
    if major == 4 {
      assert Items(s, body, 0) == Parsed(Some([]), body);
    } else if major == 7 {
      assert Item(s, i) == Special(minor, arg, i, body, arg > 0 && body + arg % P32 <= |s|);
    }
  }

  // ----- a stream of items

  /** What is left when the first n octets are thrown away. */
  function Dropped(s: Octets, n: nat): Octets {
    if n >= |s| then [] else s[n..]
  }

  /** The next value of a stream, and the stream behind it; what is consumed is a signed number. */
  function NextOf(s: Octets, consumeUnparsable: bool): (Option<seq<Leaf>>, Octets) {
    var r := Item(s, 0);
    (r.leaves, if s != [] && (r.leaves.Some? || consumeUnparsable) && r.next < P31 then Dropped(s, r.next) else s)
  }

  /** How many octets of unreadable input are consumed on request: one initial octet of major type 7 that stands
      for nothing known, or the head of a simple value or half-precision number whose argument is taken for the
      length of something that is there.  All else stays, also what is cut off or of another major type. */
  function PassedOver(s: Octets): nat
    requires s != []
  {
    if 0xE0 <= s[0] < 0xF4 || 0xFC <= s[0] then 1
    else if s[0] == 0xF8 && |s| >= 2 && 0 < s[1] <= |s| - 2 then 2
    else if s[0] == 0xF9 && |s| >= 3 && 0 < 256 * (s[1] as int) + s[2] <= |s| - 3 then 3
    else 0
  }

  lemma SpecialPasses(s: Octets)
    requires s != [] && s[0] / 32 == 7 && Item(s, 0).leaves == None
    ensures Item(s, 0).next == PassedOver(s)
  {
    var minor := s[0] % 32;
    ShortArguments(s, 0);
    assert s[0] == 0xE0 + minor;
    if Argument(s, 0, minor).Some? {
      var (arg, body) := Argument(s, 0, minor).value;
      assert Item(s, 0) == Special(minor, arg, 0, body, arg > 0 && body + arg % P32 <= |s|);
      assert minor == 24 || minor == 25 ==> arg % P32 == arg;
    }
  }

  /** Input that is neither map nor tag and cannot be read is consumed only on request, and then only as far as the
      reader passes over it. */
  lemma UnreadableTaken(s: Octets)
    requires s != [] && s[0] / 32 != 5 && s[0] / 32 != 6 && Item(s, 0).leaves == None
    ensures NextOf(s, false) == (None, s)
    ensures NextOf(s, true) == (None, s[PassedOver(s)..])
  {
    if s[0] / 32 == 7 {
      SpecialPasses(s);
    } else {
      assert Item(s, 0).next == 0;
    }
    assert Dropped(s, PassedOver(s)) == s[PassedOver(s)..];
  }

  ghost function ReadMany(s: Octets, n: nat): (r: (seq<Option<seq<Leaf>>>, Octets))
    decreases n
  {
    if n == 0 then ([], s)
    else
      var (v, rest) := NextOf(s, false);
      var (vs, end) := ReadMany(rest, n - 1);
      ([v] + vs, end)
  }

  ghost function EachLeaves(ts: seq<Tree>): seq<Option<seq<Leaf>>> {
    if ts == [] then [] else [Some(Leaves(ts[0]))] + EachLeaves(ts[1..])
  }

  /** From a concatenation of well-formed items, followed by anything, as many calls as there are items
      return each item's leaves in turn and consume exactly the items. */
  lemma {:induction false} StreamReads(ts: seq<Tree>, tail: Octets)
    requires (forall k :: 0 <= k < |ts| ==> WellFormed(ts[k])) && |EncodeAll(ts)| < P31
    ensures ReadMany(EncodeAll(ts) + tail, |ts|) == (EachLeaves(ts), tail)
    decreases |ts|
  {
    if ts == [] {
      assert [] + tail == tail;
    } else {
      var e, r := Encode(ts[0]), EncodeAll(ts[1..]);
      StreamReads(ts[1..], tail);
      FirstOfStream(ts[0], r + tail);
      Associative(e, r, tail);
      OneMoreRead(EncodeAll(ts) + tail, |ts|, Some(Leaves(ts[0])), r + tail, EachLeaves(ts[1..]), tail);
    }
  }

  lemma OneMoreRead(s: Octets, n: nat, v: Option<seq<Leaf>>, rest: Octets, vs: seq<Option<seq<Leaf>>>, end: Octets)
    requires n > 0 && NextOf(s, false) == (v, rest) && ReadMany(rest, n - 1) == (vs, end)
    ensures ReadMany(s, n) == ([v] + vs, end)
  {
  }

  lemma FirstOfStream(t: Tree, rest: Octets)
    requires WellFormed(t) && |Encode(t)| < P31
    ensures Defined(Encode(t) + rest, 0) && NextOf(Encode(t) + rest, false) == (Some(Leaves(t)), rest)
  {
    var e := Encode(t);
    assert (e + rest)[0..|e|] == e && (e + rest)[|e|..] == rest;
    ItemReads(e + rest, 0, t);
    ItemDefined(e + rest, 0, t);
  }
}
