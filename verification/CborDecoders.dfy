/** The decoder as it runs: over a string builder, making chains of value objects. */
module CborDecoders {
  import opened Basics
  import opened Cbor
  import Fragments
  import Lcg
  import StringBuilders

  function OctetOf(b: Fragments.Byte): Octet {
    b as int
  }

  function OctetsOf(s: Fragments.Bytes): (t: Octets)
    ensures |t| == |s| && forall i :: 0 <= i < |s| ==> t[i] == OctetOf(s[i])
  {
    seq(|s|, i requires 0 <= i < |s| => OctetOf(s[i]))
  }

  /** A value, and the next of the chain that it is in. */
  class C3PValue {
    const leaf: Leaf
    var next: C3PValue?

    constructor (leaf: Leaf)
      ensures this.leaf == leaf && next == null
    {
      this.leaf, next := leaf, null;
    }

    /** Links a value behind the last one of the chain. */
    method Link(linked: C3PValue, ghost ns: seq<C3PValue>, ghost k: nat, ghost last: C3PValue)
      requires Follows(ns) && k < |ns| && this == ns[k] && last == ns[|ns| - 1]
      modifies last`next
      ensures last.next == linked
      decreases |ns| - k
    {
      if next == null {
        next := linked;
      } else {
        next.Link(linked, ns, k + 1, last);
      }
    }

    method Count(ghost ns: seq<C3PValue>, ghost k: nat) returns (n: nat)
      requires Follows(ns) && k < |ns| && this == ns[k]
      ensures n == |ns| - k
      decreases |ns| - k
    {
      n := 0;
      if next != null {
        n := next.Count(ns, k + 1);
      }
      n := n + 1;
    }

    method ValueWithIdx(idx: nat, ghost ns: seq<C3PValue>, ghost k: nat) returns (v: C3PValue?)
      requires Follows(ns) && k < |ns| && this == ns[k]
      ensures v == if k + idx < |ns| then ns[k + idx] else null
      decreases idx
    {
      if idx == 0 {
        v := this;
      } else if next != null {
        v := next.ValueWithIdx(idx - 1, ns, k + 1);
      } else {
        v := null;
      }
    }
  }

  /** Each value's next is the following one. */
  ghost predicate Follows(ns: seq<C3PValue>)
    reads ns
  {
    && (forall i, j :: 0 <= i < j < |ns| ==> ns[i] != ns[j])
    && forall i {:trigger ns[i].next} :: 0 <= i < |ns| ==> ns[i].next == if i + 1 < |ns| then ns[i + 1] else null
  }

  /** The chain that hangs off a value has the leaves. */
  ghost predicate Chained(v: C3PValue?, ns: seq<C3PValue>, leaves: seq<Leaf>)
    reads ns
  {
    && Follows(ns) && v == (if ns == [] then null else ns[0])
    && |leaves| == |ns| && forall i :: 0 <= i < |ns| ==> ns[i].leaf == leaves[i]
  }

  class C3PValueDecoder {
    const input: StringBuilders.StringBuilder

    constructor (input: StringBuilders.StringBuilder)
      ensures this.input == input
    {
      this.input := input;
    }

    ghost function Input(): Octets
      reads input`fragments
    {
      OctetsOf(input.Text())
    }

    /** The next value of the input; its octets are taken off the input. */
    method Next(consumeUnparsable: bool) returns (value: C3PValue?, ghost ns: seq<C3PValue>, ghost leaves: seq<Leaf>)
      requires input.Valid() && |Input()| < P31 && Defined(Input(), 0)
      modifies input
      ensures input.Valid()
      ensures (if value == null then None else Some(leaves), Input()) == NextOf(old(Input()), consumeUnparsable)
      ensures value != null ==> Chained(value, ns, leaves)
    {
      var taken;
      value, taken, ns, leaves := NextItem(0);
      if value != null || consumeUnparsable {
        OctetsDropped(input.Text(), taken);
        DefinedNext(Input(), 0);
        input.Cull(AsInt32(taken));
      }
    }

    /** Reads the argument that follows an initial octet. */
    method GetLengthField(offset: nat, minor: nat) returns (ok: bool, value: nat, behind: nat)
      requires input.Valid() && |Input()| < P31 && offset <= P31 && 24 <= minor < 28
      ensures ok <==> offset + Width(minor) <= |Input()|
      ensures ok ==> value == BigEndian(Input()[offset..offset + Width(minor)]) && behind == offset + Width(minor)
    {
      var w := if minor == 24 then 1 else if minor == 25 then 2 else if minor == 26 then 4 else 8;
      var word, n := ReadWord(w, offset);
      ok, value, behind := n == w, 0, offset;
      if ok {
        value := Word(word) / Power256(8 - w);
        behind := offset + w;
        WordShifts(word, input.Text()[offset..offset + w], w);
        OctetsOfSlice(input.Text(), offset, offset + w);
      }
    }

    /** Up to w octets in front of a word of eight that is zero otherwise. */
    method ReadWord(w: nat, offset: nat) returns (word: Fragments.Bytes, n: nat)
      requires input.Valid() && |Input()| < P31 && offset <= P31 && 0 < w <= 8
      ensures |word| == 8 && (n == w <==> offset + w <= |Input()|)
      ensures n == w ==> word[..w] == input.Text()[offset..offset + w] && forall i :: w <= i < 8 ==> word[i] == 0
    {
      var buf := new Fragments.Byte[8](_ => 0);
      assert buf[w..] == seq(8 - w, _ => 0);
      n := input.CopyToBuffer(buf, w, offset);
      word := buf[..];
      if n == w {
        forall i | w <= i < 8 ensures word[i] == 0 {
          assert buf[w..][i - w] == 0;
        }
      }
    }

    /** Reads one item at an offset.  Without a value, only octets that are not understood are passed. */
    method NextItem(offset: nat)
      returns (value: C3PValue?, behind: nat, ghost ns: seq<C3PValue>, ghost leaves: seq<Leaf>)
      requires input.Valid() && |Input()| < P31 && Defined(Input(), offset)
      ensures Item(Input(), offset) == Parsed(if value == null then None else Some(leaves), behind)
      ensures value != null ==> Chained(value, ns, leaves)
      ensures forall i :: 0 <= i < |ns| ==> fresh(ns[i])
      decreases Remaining(Input(), offset), 2, 0
    {
      value, behind, ns, leaves := null, offset, [], [];
      var length := input.Length();
      if length > 0 {
        var ok, first, arg, body := FirstPass(offset);
        if ok {
          value, behind, ns, leaves := SecondPass(offset, first / 32, first % 32, arg, body, length);
        }
      }
    }

    /** Reads the head of an item. */
    method FirstPass(offset: nat) returns (ok: bool, first: Octet, arg: nat, body: nat)
      requires input.Valid() && |Input()| < P31 && offset < P31
      ensures first == OctetAt(Input(), offset)
      ensures Argument(Input(), offset, first % 32) == if ok then Some((arg, body)) else None
      ensures ok ==> (first != 0 ==> body <= |Input()|) && (first % 32 <= 25 ==> arg < P16)
    {
      var b := input.ByteAt(offset);
      first := OctetOf(b);
      var minor := first % 32;
      ok, arg, body := true, if minor < 24 then minor else 0, offset + 1;
      if 24 <= minor < 28 {
        ok, arg, body := GetLengthField(offset + 1, minor);
      }
      if ok && minor <= 25 {
        ArgumentBound(Input(), offset, minor);
      }
    }

    /** Makes the value that the head of an item announces. */
    method SecondPass(offset: nat, major: nat, minor: nat, arg: nat, body: nat, length: nat)
      returns (value: C3PValue?, behind: nat, ghost ns: seq<C3PValue>, ghost leaves: seq<Leaf>)
      requires input.Valid() && length == |Input()| < P31 && offset < body && (major == 4 ==> offset < length)
      requires DefinedContent(Input(), offset, major, arg, body)
      requires (major != 0 ==> body <= length) && (minor <= 25 ==> arg < P16)
      ensures Content(Input(), offset, major, minor, arg, body) ==
              Parsed(if value == null then None else Some(leaves), behind)
      ensures value != null ==> Chained(value, ns, leaves)
      ensures forall i :: 0 <= i < |ns| ==> fresh(ns[i])
      decreases Remaining(Input(), offset), 1, 0
    {
      value, behind, ns, leaves := null, offset, [], [];
      var arg32 := arg % P32;
      if major == 0 || major == 1 {
        if minor < 28 {
          var bits := if minor < 24 then 8 else 8 * Width(minor);
          value := new C3PValue(if major == 0 then Unsigned(bits, arg) else Negative(minor, arg));
          leaves := [value.leaf];
          behind, ns := body, [value];
        }
      } else if major == 2 || major == 3 {
        LengthTestExact(length, body, arg32);
        var haveExtra := arg > 0 && Sum32(body, arg32) <= length;
        if haveExtra {
          var whole, octets := ReadString(major, body, arg32);
          if whole {
            value := new C3PValue(if major == 2 then Raw(octets) else Text(BeforeNul(octets)));
            behind, ns, leaves := body + arg32, [value], [value.leaf];
          }
        }
      } else if major == 4 {
        value, behind, ns, leaves := HandleArray(body, arg32);
        if value == null {
          behind := offset;
        }
      } else if major == 7 {
        LengthTestExact(length, body, arg32);
        var haveExtra := arg > 0 && Sum32(body, arg32) <= length;
        value, behind, ns, leaves := MakeSpecial(offset, minor, arg, body, haveExtra);
      }
    }

    /** Simple values and floating point numbers. */
    method MakeSpecial(offset: nat, minor: nat, arg: nat, body: nat, haveExtra: bool)
      returns (value: C3PValue?, behind: nat, ghost ns: seq<C3PValue>, ghost leaves: seq<Leaf>)
      ensures Special(minor, arg, offset, body, haveExtra) ==
              Parsed(if value == null then None else Some(leaves), behind)
      ensures value != null ==> Chained(value, ns, leaves)
      ensures forall i :: 0 <= i < |ns| ==> fresh(ns[i])
    {
      value, ns, leaves := null, [], [];
      var r := Special(minor, arg, offset, body, haveExtra);
      behind := r.next;
      if r.leaves.Some? {
        value := new C3PValue(r.leaves.value[0]);
        ns, leaves := [value], r.leaves.value;
      }
    }

    /** Makes room for a string and copies it; a text has a NUL behind it, and its room is computed with 32
        bits.  Is it there as a whole?  The number of octets copied is compared as a signed number. */
    method ReadString(major: nat, body: nat, n: nat) returns (whole: bool, octets: Octets)
      requires input.Valid() && body <= |Input()| < P31 && n < P32 && Sum32(body, n) <= |Input()|
      requires major == 3 ==> body + n < P32
      ensures whole <==> body + n <= |Input()|
      ensures whole ==> octets == Input()[body..body + n]
    {
      var buf := new Fragments.Byte[if major == 3 then Sum32(n, 1) else n](_ => 0);
      if major == 3 {
        buf[n] := 0;
      }
      var copied := input.CopyToBuffer(buf, n, body);
      whole := AsInt32(n) == copied;
      octets := [];
      if whole {
        OctetsOfSlice(input.Text(), body, body + n);
        octets := OctetsOf(buf[..n]);
      }
    }

    /** Reads the counted items and links their values into one chain. */
    method HandleArray(offset: nat, count: nat)
      returns (ret: C3PValue?, behind: nat, ghost ns: seq<C3PValue>, ghost leaves: seq<Leaf>)
      requires input.Valid() && |Input()| < P31 && DefinedItems(Input(), offset, count)
      ensures var r := Items(Input(), offset, count);
        if r.leaves.Some? && r.leaves.value != [] then ret != null && leaves == r.leaves.value && behind == r.next
        else ret == null && behind == offset
      ensures ret != null ==> Chained(ret, ns, leaves)
      ensures forall i :: 0 <= i < |ns| ==> fresh(ns[i])
      decreases Remaining(Input(), offset), 3, count
    {
      behind := offset;
      ghost var all := Items(Input(), offset, count);
      ExtendsNothing(all);
      var bailout, at;
      bailout, ret, at, ns, leaves := ReadAll(offset, count, all);
      if bailout {
        ret := null;
      } else {
        ExtendsAll(all, leaves, at);
        if ret != null {
          behind := at;
        }
      }
    }

    /** The loop over the items, which stops at one that cannot be read. */
    method ReadAll(offset: nat, count: nat, ghost all: Parsed)
      returns (bailout: bool, ret: C3PValue?, at: nat, ghost ns: seq<C3PValue>, ghost leaves: seq<Leaf>)
      requires input.Valid() && |Input()| < P31 && Underway(all, false, [], offset, count)
      ensures Underway(all, bailout, leaves, at, 0) && Chained(ret, ns, leaves)
      ensures forall i :: 0 <= i < |ns| ==> fresh(ns[i])
      decreases Remaining(Input(), offset), 2, 2
    {
      bailout, ret, at, ns, leaves := false, null, offset, [], [];
      var left := count;
      while !bailout && left > 0
        invariant at >= offset && Chained(ret, ns, leaves) && Underway(all, bailout, leaves, at, left)
        invariant forall i :: 0 <= i < |ns| ==> fresh(ns[i])
        decreases left
      {
        left := left - 1;
        bailout, ret, at, ns, leaves := ReadInto(ret, at, ns, leaves, left, all);
      }
    }

    /** The leaves are those of the items so far, and left more are to be read at a position; or reading has
        failed, and so it will as a whole. */
    ghost predicate Underway(all: Parsed, bailout: bool, leaves: seq<Leaf>, at: nat, left: nat)
      reads input`fragments
    {
      if bailout then all.leaves == None
      else DefinedItems(Input(), at, left) && Extends(all, leaves, Items(Input(), at, left))
    }

    /** Reads one more item into a chain; bails out if there is none. */
    method ReadInto(ret: C3PValue?, at: nat, ghost ns: seq<C3PValue>, ghost leaves: seq<Leaf>,
                    ghost left: nat, ghost all: Parsed)
      returns (bailout: bool, ret': C3PValue?, next: nat, ghost ns': seq<C3PValue>, ghost leaves': seq<Leaf>)
      requires input.Valid() && |Input()| < P31 && Chained(ret, ns, leaves)
      requires Underway(all, false, leaves, at, left + 1)
      modifies ns
      ensures input.Valid() && Input() == old(Input()) && next >= at
      ensures Chained(ret', ns', leaves')
      ensures forall i :: 0 <= i < |ns'| ==> ns'[i] in ns || fresh(ns'[i])
      ensures Underway(all, bailout, leaves', next, left)
      decreases Remaining(Input(), at), 2, 1
    {
      ret', ns', leaves' := ret, ns, leaves;
      var value;
      ghost var ms, more;
      value, next, ms, more := NextItem(at);
      bailout := value == null;
      if value != null {
        ExtendsStep(all, leaves, Input(), at, left + 1);
        ret' := Join(ret, ns, leaves, value, ms, more);
        ns', leaves' := ns + ms, leaves + more;
      } else {
        next := at;
      }
    }

    /** Takes a chain, or links it behind the one there is. */
    method Join(ret: C3PValue?, ghost ns: seq<C3PValue>, ghost leaves: seq<Leaf>,
                value: C3PValue, ghost ms: seq<C3PValue>, ghost more: seq<Leaf>) returns (joined: C3PValue)
      requires Chained(ret, ns, leaves) && Chained(value, ms, more)
      requires forall i, j :: 0 <= i < |ns| && 0 <= j < |ms| ==> ns[i] != ms[j]
      modifies ns
      ensures Chained(joined, ns + ms, leaves + more)
    {
      if ret == null {
        joined := value;
        assert ns + ms == ms && leaves + more == more;
      } else {
        joined := ret;
        ret.Link(value, ns, 0, ns[|ns| - 1]);
      }
    }
  }

  /** all is what comes of putting leaves before rest. */
  ghost predicate Extends(all: Parsed, leaves: seq<Leaf>, rest: Parsed) {
    if rest.leaves.None? then all.leaves == None
    else all == Parsed(Some(leaves + rest.leaves.value), rest.next)
  }

  lemma ExtendsNothing(all: Parsed)
    ensures all.leaves.None? || all == Parsed(Some([] + all.leaves.value), all.next)
  {
    if all.leaves.Some? {
      assert [] + all.leaves.value == all.leaves.value;
    }
  }

  lemma ExtendsAll(all: Parsed, leaves: seq<Leaf>, at: nat)
    requires Extends(all, leaves, Parsed(Some([]), at))
    ensures all == Parsed(Some(leaves), at)
  {
    assert leaves + [] == leaves;
  }

  lemma ExtendsStep(all: Parsed, leaves: seq<Leaf>, s: Octets, at: nat, left: nat)
    requires left > 0 && Extends(all, leaves, Items(s, at, left)) && Item(s, at).leaves.Some?
    ensures Extends(all, leaves + Item(s, at).leaves.value, Items(s, Item(s, at).next, left - 1))
  {
    var head := Item(s, at);
    var rest := Items(s, head.next, left - 1);
    if rest.leaves.Some? {
      Associative(leaves, head.leaves.value, rest.leaves.value);
    }
  }

  /** Eight octets side by side in a 64-bit word. */
  function Word(b: Fragments.Bytes): nat
    requires |b| == 8
  {
    OctetOf(b[0]) * 0x100_0000_0000_0000 + OctetOf(b[1]) * 0x1_0000_0000_0000
    + OctetOf(b[2]) * 0x100_0000_0000 + OctetOf(b[3]) * 0x1_0000_0000
    + OctetOf(b[4]) * 0x100_0000 + OctetOf(b[5]) * 0x1_0000 + OctetOf(b[6]) * 0x100 + OctetOf(b[7])
  }

  lemma BigEndianSnoc(s: Octets, k: nat)
    requires k < |s|
    ensures BigEndian(s[..k + 1]) == BigEndian(s[..k]) * 256 + s[k]
  {
    assert s[..k + 1][..k] == s[..k];
  }

  lemma OctetsOfSlice(s: Fragments.Bytes, a: nat, b: nat)
    requires a <= b <= |s|
    ensures OctetsOf(s[a..b]) == OctetsOf(s)[a..b]
  {
  }

  lemma OctetsDropped(s: Fragments.Bytes, n: nat)
    ensures OctetsOf(if n == 0 then s else if n >= |s| then [] else s[n..]) == Dropped(OctetsOf(s), n)
  {
    var t, u := OctetsOf(if n == 0 then s else if n >= |s| then [] else s[n..]), Dropped(OctetsOf(s), n);
    assert |t| == |u|;
    forall i | 0 <= i < |t| ensures t[i] == u[i] {
    }
  }

  /** Shifting the word right leaves the octets that were read, most significant first. */
  lemma WordShifts(b: Fragments.Bytes, t: Fragments.Bytes, w: nat)
    requires |b| == 8 && (w == 1 || w == 2 || w == 4 || w == 8) && |t| == w && b[..w] == t
    requires forall i :: w <= i < 8 ==> b[i] == 0
    ensures Word(b) / Power256(8 - w) == BigEndian(OctetsOf(t))
  {
    FirstOctets(b, t, w);
    ShiftIs(w);
    ScaledIs(BigEndian(OctetsOf(t)), w);
    ExactDivision(BigEndian(OctetsOf(t)), Power256(8 - w));
  }

  lemma ExactDivision(q: nat, c: nat)
    requires c > 0
    ensures (q * c) / c == q
  {
    Lcg.ModUnique(q * c, c, q, 0);
  }

  /** The place value of the last octet that was read. */
  function Unit(w: nat): nat {
    if w == 1 then 0x100_0000_0000_0000 else if w == 2 then 0x1_0000_0000_0000 else if w == 4 then P32 else 1
  }

  lemma ShiftIs(w: nat)
    requires w == 1 || w == 2 || w == 4 || w == 8
    ensures Power256(8 - w) == Unit(w)
  {
    PowersOf256();
    assert Power256(0) == 1;
    assert Power256(5) == 256 * Power256(4);
    assert Power256(6) == 256 * Power256(5);
    assert Power256(7) == 256 * Power256(6);
  }

  lemma ScaledIs(x: nat, w: nat)
    requires w == 1 || w == 2 || w == 4 || w == 8
    ensures Scaled(x, w) == x * Unit(w)
  {
  }

  /** A number times the place value of its last octet. */
  function Scaled(x: nat, w: nat): nat {
    if w == 1 then x * 0x100_0000_0000_0000
    else if w == 2 then x * 0x1_0000_0000_0000
    else if w == 4 then x * P32
    else x
  }

  lemma FirstOctets(b: Fragments.Bytes, t: Fragments.Bytes, w: nat)
    requires |b| == 8 && (w == 1 || w == 2 || w == 4 || w == 8) && |t| == w && b[..w] == t
    requires forall i :: w <= i < 8 ==> b[i] == 0
    ensures Word(b) == Scaled(BigEndian(OctetsOf(t)), w)
  {
    var o := OctetsOf(t);
    assert forall i :: 0 <= i < w ==> b[i] == t[i];
    assert OctetOf(0) == 0;
    assert o[..w] == o;
    if w >= 4 {
      FourOctets(o);
    } else {
      Prefixes(o);
    }
    if w == 8 {
      LastFour(o);
    }
  }

  lemma FourOctets(o: Octets)
    requires |o| >= 4
    ensures BigEndian(o[..4]) == (o[0] as int) * 0x100_0000 + (o[1] as int) * 0x1_0000 + (o[2] as int) * 0x100 + o[3]
  {
    BigEndianSnoc(o, 0);
    BigEndianSnoc(o, 1);
    BigEndianSnoc(o, 2);
    BigEndianSnoc(o, 3);
  }

  lemma LastFour(o: Octets)
    requires |o| == 8
    ensures BigEndian(o[..8])
         == BigEndian(o[..4]) * P32 + (o[4] as int) * 0x100_0000
           + (o[5] as int) * 0x1_0000 + (o[6] as int) * 0x100 + o[7]
  {
    BigEndianSnoc(o, 4);
    BigEndianSnoc(o, 5);
    BigEndianSnoc(o, 6);
    BigEndianSnoc(o, 7);
  }

  /** The value of each prefix from that of the one before. */
  lemma Prefixes(o: Octets)
    ensures forall k :: 0 <= k < |o| ==> BigEndian(o[..k + 1]) == BigEndian(o[..k]) * 256 + o[k]
    ensures BigEndian(o[..0]) == 0
  {
    forall k | 0 <= k < |o| ensures BigEndian(o[..k + 1]) == BigEndian(o[..k]) * 256 + o[k] {
      BigEndianSnoc(o, k);
    }
  }
}
