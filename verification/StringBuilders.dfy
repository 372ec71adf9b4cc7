/** The string builder: a linked list of fragments that together hold one string. */
module StringBuilders {
  import opened Basics
  import opened Fragments
  import opened Replacing

  class StrLL {
    var next: StrLL?
    var str: Bytes

    constructor (str: Bytes, next: StrLL?)
      ensures this.str == str && this.next == next
    {
      this.str, this.next := str, next;
    }
  }

  ghost function At(ns: seq<StrLL>, i: nat): StrLL? {
    if i < |ns| then ns[i] else null
  }

  ghost predicate Disjoint(a: seq<StrLL>, b: seq<StrLL>) {
    forall i, j :: 0 <= i < |a| && 0 <= j < |b| ==> a[i] != b[j]
  }

  /** Every node is one of the old ones or new, so what was apart from the old ones stays apart. */
  twostate predicate Grown(new ns: seq<StrLL>, was: seq<StrLL>) {
    forall i :: 0 <= i < |ns| ==> ns[i] in was || fresh(ns[i])
  }

  /** The list that hangs off root has the nodes ns and holds the fragments fr. */
  ghost predicate Chain(root: StrLL?, ns: seq<StrLL>, fr: seq<Bytes>)
    reads ns
  {
    && |fr| == |ns| && root == At(ns, 0) && NoDuplicates(ns)
    && forall i {:trigger ns[i].next} {:trigger ns[i].str} :: 0 <= i < |ns| ==>
        ns[i].next == At(ns, i + 1) && ns[i].str == fr[i]
  }

  class StringBuilder {
    var root: StrLL?
    ghost var nodes: seq<StrLL>
    ghost var fragments: seq<Bytes>

    /** The list is well formed and holds no empty fragment. */
    ghost predicate Valid()
      reads this, nodes
    {
      Chain(root, nodes, fragments) && NonEmpty(fragments)
    }

    /** The string that the list holds. */
    ghost function Text(): Bytes
      reads this`fragments
    {
      Flatten(fragments)
    }

    constructor ()
      ensures Valid() && nodes == [] && fragments == []
    {
      root, nodes, fragments := null, [], [];
    }

    method Clear()
      modifies this
      ensures Valid() && nodes == [] && fragments == []
    {
      root, nodes, fragments := null, [], [];
    }

    /** The number of fragments, counted with 16 bits. */
    method Count() returns (n: nat)
      requires Valid()
      ensures n == Counted(|fragments|)
    {
      n := 0;
      ghost var k: nat := 0;
      var current := root;
      while current != null
        invariant k <= |nodes| && current == At(nodes, k) && n == Counted(k)
        decreases |nodes| - k
      {
        n := if n == P16 - 1 then 0 else n + 1;
        current := current.next;
        k := k + 1;
      }
    }

    method Length() returns (n: nat)
      requires Valid()
      ensures n == |Text()|
    {
      n := 0;
      if root != null {
        n := TotalLength(root, 0);
      }
    }

    /** The length of the string from a node on. */
    method TotalLength(node: StrLL, ghost k: nat) returns (n: nat)
      requires Valid() && k < |nodes| && node == nodes[k]
      ensures Offset(fragments, k) + n == |Text()|
      decreases |nodes| - k
    {
      n := 0;
      if node.next != null {
        n := TotalLength(node.next, k + 1);
      } else {
        WholeLength(fragments);
      }
      n := n + |node.str|;
    }

    /** Finds the fragment that contains an offset, and the offset within it. */
    method Containing(node: StrLL, offset: nat, ghost k: nat) returns (found: StrLL?, rest: int, ghost f: nat)
      requires Valid() && k < |nodes| && node == nodes[k]
      ensures var p := Offset(fragments, k) + offset;
        if p < |Text()| then 0 <= rest && f < |nodes| && found == nodes[f] && Cursor(fragments, f, rest, p)
        else found == null && rest == -1
      ensures var p := Offset(fragments, k) + offset;
        (found != null <==> p < |Text()|) && (found != null ==> 0 <= rest < |found.str|)
      decreases |nodes| - k
    {
      if offset < |node.str| {
        found, rest, f := node, offset, k;
        ByteAtCursor(fragments, k, offset);
      } else if node.next != null {
        found, rest, f := Containing(node.next, offset - |node.str|, k + 1);
      } else {
        found, rest, f := null, -1, k;
        WholeLength(fragments);
      }
    }

    method ByteAt(offset: nat) returns (b: Byte)
      requires Valid() && offset < P31
      ensures b == if offset < |Text()| then Text()[offset] else 0
    {
      b := 0;
      if root != null {
        var node, rest, k := Containing(root, offset, 0);
        if node != null {
          b := node.str[rest];
          CursorStep(fragments, k, rest, offset);
        }
      }
    }

    method Last() returns (last: StrLL)
      requires Valid() && root != null
      ensures nodes != [] && last == nodes[|nodes| - 1]
    {
      last := root;
      ghost var k: nat := 0;
      while last.next != null
        invariant k < |nodes| && last == nodes[k]
        decreases |nodes| - k
      {
        last := last.next;
        k := k + 1;
      }
    }

    /** Hangs a chain of nodes on the end of the list. */
    method StackOntoList(nu: StrLL?, ghost nus: seq<StrLL>, ghost fr: seq<Bytes>)
      requires Valid() && Chain(nu, nus, fr) && NonEmpty(fr) && Disjoint(nodes, nus)
      modifies this, nodes`next
      ensures Valid() && nodes == old(nodes) + nus && fragments == old(fragments) + fr
    {
      assert NoDuplicates(nodes + nus) && NonEmpty(fragments + fr);
      if root == null {
        root := nu;
      } else {
        var last := Last();
        last.next := nu;
      }
      nodes, fragments := nodes + nus, fragments + fr;
    }

    /** Moves the donor's whole list to the end of this one. */
    method ConcatHandoff(donor: StringBuilder)
      requires Valid() && donor.Valid() && this != donor && Disjoint(nodes, donor.nodes)
      modifies this, nodes`next, donor
      ensures Valid() && donor.Valid()
      ensures donor.nodes == [] && nodes == old(nodes) + old(donor.nodes)
      ensures donor.fragments == [] && fragments == old(fragments) + old(donor.fragments)
    {
      if donor.root != null {
        StackOntoList(donor.root, donor.nodes, donor.fragments);
      } else {
        assert nodes == nodes + donor.nodes && fragments == fragments + donor.fragments;
      }
      donor.root, donor.nodes, donor.fragments := null, [], [];
    }

    /** Moves the donor's whole list to the front of this one. */
    method PrependHandoff(donor: StringBuilder)
      requires Valid() && donor.Valid() && this != donor && Disjoint(nodes, donor.nodes)
      modifies this, donor, donor.nodes`next
      ensures Valid() && donor.Valid()
      ensures donor.nodes == [] && nodes == old(donor.nodes) + old(nodes)
      ensures donor.fragments == [] && fragments == old(donor.fragments) + old(fragments)
    {
      if donor.root != null {
        donor.StackOntoList(root, nodes, fragments);
        root, nodes, fragments := donor.root, donor.nodes, donor.fragments;
        donor.root, donor.nodes, donor.fragments := null, [], [];
      } else {
        assert nodes == donor.nodes + nodes && fragments == donor.fragments + fragments;
      }
    }

    /** Cuts the nodes pos..pos + k out of the list; prior and last are the nodes before and at the
        end of the cut. */
    method CutOut(prior: StrLL?, last: StrLL, ghost pos: nat, ghost k: nat)
      requires Valid() && 0 < k && pos + k <= |nodes|
      requires prior == (if pos == 0 then null else nodes[pos - 1]) && last == nodes[pos + k - 1]
      modifies this, nodes`next
      ensures nodes == Kept(old(nodes), pos, k) && fragments == Kept(old(fragments), pos, k) && Valid()
      ensures Chain(old(nodes)[pos], Taken(old(nodes), pos, k), Taken(old(fragments), pos, k))
    {
      CutIsDistinct(nodes, pos, k);
      Sever(prior, last, pos, k);
      TakenChain(nodes, fragments, pos, k);
      KeptChain(nodes, fragments, pos, k);
      nodes, fragments := Kept(nodes, pos, k), Kept(fragments, pos, k);
    }

    method Sever(prior: StrLL?, last: StrLL, ghost pos: nat, ghost k: nat)
      requires Valid() && 0 < k && pos + k <= |nodes|
      requires prior == (if pos == 0 then null else nodes[pos - 1]) && last == nodes[pos + k - 1]
      modifies this`root, nodes`next
      ensures Severed(nodes, fragments, pos, k)
      ensures root == if pos == 0 then At(nodes, k) else nodes[0]
    {
      if prior == null {
        root := last.next;
      } else {
        prior.next := last.next;
      }
      last.next := null;
    }

    /** The node at a position and its predecessor. */
    method Seek(pos: nat) returns (prior: StrLL?, current: StrLL?)
      requires Valid()
      ensures current == At(nodes, pos)
      ensures pos <= |nodes| ==> prior == if pos == 0 then null else nodes[pos - 1]
    {
      var left := pos;
      prior, current := null, root;
      while 0 < left && current != null
        invariant 0 <= left <= pos && pos - left <= |nodes| && current == At(nodes, pos - left)
        invariant prior == if left == pos then null else nodes[pos - left - 1]
      {
        left := left - 1;
        prior := current;
        current := current.next;
      }
    }

    /** The fragment at a position; nothing before the first and past the last one. */
    method Position(pos: int) returns (str: Bytes)
      requires Valid()
      ensures str == if 0 <= pos < |fragments| then fragments[pos] else []
    {
      var i := 0;
      var current := root;
      while i != pos && current != null
        invariant 0 <= i <= |nodes| && (0 <= pos ==> i <= pos) && current == At(nodes, i)
        decreases |nodes| - i
      {
        current := current.next;
        i := i + 1;
      }
      str := if current == null then [] else current.str;
    }

    /** Frees the fragment at the given position. */
    method DropPosition(pos: nat) returns (r: bool)
      requires Valid()
      modifies this, nodes`next
      ensures Valid() && (r <==> pos < |old(fragments)|)
      ensures fragments == if r then Kept(old(fragments), pos, 1) else old(fragments)
      ensures nodes == if r then Kept(old(nodes), pos, 1) else old(nodes)
    {
      var prior, current := Seek(pos);
      r := current != null;
      if r {
        CutOut(prior, current, pos, 1);
      }
    }

    /** Moves up to count of the donor's fragments, starting at pos, to the end of this list. */
    method ConcatHandoffPositions(donor: StringBuilder, pos: nat, count: nat) returns (moved: nat)
      requires Valid() && donor.Valid() && this != donor && Disjoint(nodes, donor.nodes)
      requires pos < P32 && count < P32 && |donor.fragments| < P31
      modifies this, nodes`next, donor, donor.nodes`next
      ensures Valid() && donor.Valid() && Disjoint(nodes, donor.nodes)
      ensures moved == Available(|old(donor.fragments)|, pos, count)
      ensures if moved == 0 then nodes == old(nodes) && donor.nodes == old(donor.nodes)
              else nodes == old(nodes) + Taken(old(donor.nodes), pos, moved)
                   && donor.nodes == Kept(old(donor.nodes), pos, moved)
      ensures if moved == 0 then fragments == old(fragments) && donor.fragments == old(donor.fragments)
              else fragments == old(fragments) + Taken(old(donor.fragments), pos, moved)
                   && donor.fragments == Kept(old(donor.fragments), pos, moved)
    {
      moved := 0;
      var total := donor.Count();
      var room := Difference32(total, pos);
      var fragCount := if count < room then count else room;
      if 0 < fragCount {
        var prior, first := donor.Seek(pos);
        if first != null {
          var last;
          last, moved := donor.SeekLast(first, if fragCount < P31 then fragCount else fragCount - P32, pos);
          Splice(donor, prior, first, last, pos, moved);
        }
      }
    }

    /** Walks to the last fragment to be moved and counts them. */
    method SeekLast(first: StrLL, fragCount: int, ghost pos: nat) returns (last: StrLL, moved: nat)
      requires Valid() && pos < |nodes| && first == nodes[pos]
      ensures moved == if fragCount <= 1 then 1 else if fragCount < |nodes| - pos then fragCount else |nodes| - pos
      ensures pos + moved <= |nodes| && last == nodes[pos + moved - 1]
    {
      last, moved := first, 1;
      while moved < fragCount && last.next != null
        invariant 0 < moved <= |nodes| - pos && last == nodes[pos + moved - 1] && (moved <= fragCount || moved == 1)
        decreases |nodes| - moved
      {
        last := last.next;
        moved := moved + 1;
      }
    }

    /** Moves the donor's fragments pos..pos + k over. */
    method Splice(donor: StringBuilder, prior: StrLL?, first: StrLL, last: StrLL, ghost pos: nat, ghost k: nat)
      requires Valid() && donor.Valid() && this != donor && Disjoint(nodes, donor.nodes)
      requires 0 < k && pos + k <= |donor.nodes| && first == donor.nodes[pos] && last == donor.nodes[pos + k - 1]
      requires prior == if pos == 0 then null else donor.nodes[pos - 1]
      modifies this, nodes`next, donor, donor.nodes`next
      ensures Valid() && donor.Valid() && Disjoint(nodes, donor.nodes)
      ensures nodes == old(nodes) + Taken(old(donor.nodes), pos, k) && donor.nodes == Kept(old(donor.nodes), pos, k)
      ensures fragments == old(fragments) + Taken(old(donor.fragments), pos, k)
      ensures donor.fragments == Kept(old(donor.fragments), pos, k)
    {
      CutIsDistinct(donor.nodes, pos, k);
      MovedApart(nodes, donor.nodes, pos, k);
      donor.CutOut(prior, last, pos, k);
      StackOntoList(first, Taken(old(donor.nodes), pos, k), Taken(old(donor.fragments), pos, k));
    }

    // ----- copies

    /** Adds a fragment with a copy of the bytes at the end; nothing if there are none. */
    method Concat(buf: Bytes)
      requires Valid()
      modifies this, nodes`next
      ensures Valid() && Grown(nodes, old(nodes))
      ensures fragments == if buf == [] then old(fragments) else old(fragments) + [buf]
    {
      if buf != [] {
        var nu := Append(buf);
      }
    }

    method Append(buf: Bytes) returns (nu: StrLL)
      requires Valid() && buf != []
      modifies this, nodes`next
      ensures Valid() && fragments == old(fragments) + [buf]
      ensures fresh(nu) && nodes == old(nodes) + [nu]
    {
      nu := new StrLL(buf, null);
      StackOntoList(nu, [nu], [buf]);
    }

    /** Adds a fragment with a copy of the bytes at the front; nothing if there are none. */
    method Prepend(buf: Bytes)
      requires Valid()
      modifies this
      ensures Valid() && Grown(nodes, old(nodes))
      ensures fragments == if buf == [] then old(fragments) else [buf] + old(fragments)
    {
      if buf != [] {
        var nu := new StrLL(buf, root);
        root, nodes, fragments := nu, [nu] + nodes, [buf] + fragments;
      }
    }

    /** Copies bytes one at a time from a reading position on, through as many fragments as it takes. */
    method ReadBytes(node: StrLL?, intra: nat, copyLen: nat, ghost k: nat, ghost p: nat)
      returns (copy: Bytes, node': StrLL?, intra': nat, ghost k': nat)
      requires Valid() && node == At(nodes, k) && Cursor(fragments, k, intra, p) && p + copyLen <= |Text()|
      ensures copy == Text()[p..p + copyLen]
      ensures node' == At(nodes, k') && Cursor(fragments, k', intra', p + copyLen)
    {
      copy, node', intra', k' := [], node, intra, k;
      while |copy| < copyLen && node' != null
        invariant |copy| <= copyLen && copy == Text()[p..p + |copy|]
        invariant node' == At(nodes, k') && Cursor(fragments, k', intra', p + |copy|)
        decreases copyLen - |copy|
      {
        CursorStep(fragments, k', intra', p + |copy|);
        copy := copy + [node'.str[intra']];
        intra' := intra' + 1;
        if intra' >= |node'.str| {
          node', intra', k' := node'.next, 0, k' + 1;
        }
      }
      CursorAtEnd(fragments, k', intra', p + |copy|);
    }

    /** Makes a node with a copy of contentLen bytes from a reading position on, if there are that many. */
    method CreateFrom(contentLen: int, content: StrLL?, offset: nat, ghost k: nat, ghost p: nat) returns (nu: StrLL?)
      requires Valid() && content == At(nodes, k) && Cursor(fragments, k, offset, p)
      ensures nu != null <==> 0 < contentLen <= |Text()| - p
      ensures nu != null ==> fresh(nu) && nu.next == null && nu.str == Text()[p..p + contentLen]
    {
      nu := null;
      CursorAtEnd(fragments, k, offset, p);
      if content != null && 0 < contentLen {
        var sourceLen := TotalLength(content, k);
        if contentLen <= sourceLen - offset {
          var copy, node, intra, k' := ReadBytes(content, offset, contentLen, k, p);
          nu := new StrLL(copy, null);
        }
      }
    }

    /** Adds one fragment with a copy of the donor's first bytes, at most limit of them; a limit that is no
        signed number takes none. */
    method ConcatLimit(donor: StringBuilder, limit: nat)
      requires Valid() && donor.Valid() && this != donor && Disjoint(nodes, donor.nodes)
      requires limit < P32 && |donor.Text()| < P31
      modifies this, nodes`next
      ensures Valid() && donor.Valid() && Grown(nodes, old(nodes))
      ensures var n := LimitTaken(limit, |donor.Text()|);
        fragments == if n == 0 then old(fragments) else old(fragments) + [donor.Text()[..n]]
    {
      if 0 < limit && donor.root != null {
        var length := donor.Length();
        var n := Min(AsInt32(limit), length);
        if 0 < n {
          var frag := donor.CreateFrom(n, donor.root, 0, 0, 0);
          if frag != null {
            StackOntoList(frag, [frag], [frag.str]);
          }
        }
      } else {
        assert limit == 0 || donor.Text() == [];
      }
    }

    /** Becomes a fragment-by-fragment copy of another builder, of as many fragments as the 16-bit count
        shows. */
    method CloneClobber(src: StringBuilder) returns (count: nat)
      requires src.Valid() && this != src
      modifies this
      ensures Valid() && src.Valid() && (forall i :: 0 <= i < |nodes| ==> fresh(nodes[i]))
      ensures count == Counted(|src.fragments|) && fragments == src.fragments[..count]
      ensures fragments == src.fragments <==> |src.fragments| < P16
    {
      Clear();
      var total := src.Count();
      count := 0;
      var current := src.root;
      while count < total && current != null
        invariant count <= total && current == At(src.nodes, count)
        invariant forall i :: 0 <= i < |nodes| ==> fresh(nodes[i])
        invariant src.Valid() && Valid() && fragments == src.fragments[..count]
      {
        var nu := Append(current.str);
        current := current.next;
        count := count + 1;
      }
    }

    /** Copies the part of the string that starts at start, at most limit bytes, into the buffer.  A start
        that is too far behind the string would be taken for one before it. */
    method CopyToBuffer(buf: array<Byte>, limit: nat, start: nat) returns (n: nat)
      requires Valid() && Min(limit, |Text()| - start) <= buf.Length
      requires |Text()| < P31 && limit < P32 && start < P32 && start <= |Text()| + P31
      modifies buf
      ensures n == if start < |Text()| then Min(limit, |Text()| - start) else 0
      ensures start < |Text()| ==> buf[..n] == Text()[start..start + n]
      ensures buf[n..] == old(buf[n..])
    {
      n := 0;
      var length := Length();
      var subject := AsInt32(Difference32(length, start));
      BehindExact(length, start);
      if 0 < subject {
        var copyLength := Min(limit, subject);
        var node, offset, k := Containing(root, start, 0);
        while node != null && n < copyLength
          invariant n <= copyLength && buf[..n] == Text()[start..start + n] && buf[n..] == old(buf[n..])
          invariant node == At(nodes, k) && 0 <= offset && (n < copyLength ==> Cursor(fragments, k, offset, start + n))
          decreases |nodes| - k
        {
          n := CopyFragment(buf, n, copyLength, node, offset, k, start);
          node, offset, k := node.next, 0, k + 1;
        }
        if n < copyLength {
          CursorAtEnd(fragments, k, offset, start + n);
        }
      }
    }

    /** Copies what is wanted of one fragment. */
    method CopyFragment(buf: array<Byte>, n: nat, wanted: nat, node: StrLL, offset: nat, ghost k: nat, ghost start: nat)
      returns (n': nat)
      requires Valid() && k < |nodes| && node == nodes[k] && Cursor(fragments, k, offset, start + n)
      requires n < wanted <= buf.Length && start + wanted <= |Text()| && buf[..n] == Text()[start..start + n]
      modifies buf
      ensures n < n' <= wanted && buf[..n'] == Text()[start..start + n'] && buf[n'..] == old(buf[n'..])
      ensures n' < wanted ==> Cursor(fragments, k + 1, 0, start + n')
    {
      var inner := Min(|node.str| - offset, wanted - n);
      FragmentSlice(fragments, k, offset, inner);
      CopyInto(buf, n, node.str[offset..offset + inner], Text(), start);
      n' := n + inner;
    }

    /** Makes the whole string one fragment. */
    method Collapse()
      requires Valid()
      modifies this
      ensures Valid() && Text() == old(Text()) && Grown(nodes, old(nodes))
      ensures fragments == if Text() == [] then [] else [Text()]
    {
      NonEmptyText(fragments);
      if root != null && root.next != null {
        var flat := Collapsed();
        Become(flat);
      } else if root != null {
        FlattenOne(fragments[0]);
        assert fragments == [fragments[0]];
      }
    }

    method Collapsed() returns (flat: Bytes)
      requires Valid()
      ensures flat == Text()
    {
      flat := [];
      ghost var k: nat := 0;
      var current := root;
      while current != null
        invariant k <= |nodes| && current == At(nodes, k) && flat == Flatten(fragments[..k])
        decreases |nodes| - k
      {
        FlattenSnoc(fragments, k);
        flat := flat + current.str;
        current := current.next;
        k := k + 1;
      }
      assert fragments[..k] == fragments;
    }

    /** Throws the list away for one new fragment. */
    method Become(flat: Bytes)
      requires flat != []
      modifies this
      ensures Valid() && fragments == [flat] && Text() == flat && |nodes| == 1 && fresh(nodes[0])
    {
      root := new StrLL(flat, null);
      nodes, fragments := [root], [flat];
      FlattenOne(flat);
    }

    /** Keeps newLength bytes from offset on, if the range exists; keeping none clears the string. */
    method CullRange(offset: int, newLength: int)
      requires Valid() && |Text()| < P31 && -P31 <= offset < P31 && -P31 <= newLength < P31
      requires 0 <= offset && newLength != 0 ==> offset + newLength < P31
      modifies this
      ensures Valid() && Grown(nodes, old(nodes))
      ensures newLength == 0 ==> fragments == []
      ensures newLength != 0 && InRange(|old(Text())|, offset, newLength) ==>
        fragments == [old(Text())[offset..offset + newLength]]
      ensures newLength != 0 && !InRange(|old(Text())|, offset, newLength) ==> fragments == old(fragments)
    {
      var length := Length();
      if newLength == 0 {
        Clear();
      } else if offset >= 0 {
        if length >= AsInt32(offset + newLength) && newLength > 0 {
          Collapse();
          Become(root.str[offset..offset + newLength]);
        }
      }
    }

    /** Throws the first x bytes away. */
    method Cull(x: int)
      requires Valid()
      modifies this
      ensures Valid()
      ensures Text() == if x <= 0 then old(Text()) else if x >= |old(Text())| then [] else old(Text())[x..]
      ensures fragments == if x <= 0 then old(fragments) else if Text() == [] then [] else [Text()]
      ensures Grown(nodes, old(nodes))
    {
      if x > 0 {
        var length := Length();
        if 0 < length {
          if x >= length {
            Clear();
          } else {
            Collapse();
            Become(root.str[x..]);
          }
        } else {
          NonEmptyText(fragments);
        }
      }
    }

    /** Takes over the list of a working object. */
    method Adopt(working: StringBuilder)
      requires working.Valid()
      modifies this
      ensures Valid() && nodes == working.nodes && fragments == working.fragments
    {
      root, nodes, fragments := working.root, working.nodes, working.fragments;
    }

    // ----- chunk

    /** Cuts the string into pieces of size bytes; the last may be shorter. */
    method Chunk(size: int) returns (count: int)
      requires Valid()
      modifies this
      ensures Valid() && Text() == old(Text()) && Grown(nodes, old(nodes))
      ensures size <= 0 ==> count == -1 && fragments == old(fragments)
      ensures 0 < size && |Text()| <= size ==> count == 1 && fragments == if Text() == [] then [] else [Text()]
      ensures 0 < size < |Text()| ==> count == |fragments| && fragments == Chunks(Text(), size)
    {
      count := -1;
      if 0 < size {
        var length := Length();
        if length <= size {
          Collapse();
          count := 1;
        } else {
          var working;
          count, working := Chunked(size);
          ChunksCover(Text(), size);
          Adopt(working);
        }
      }
    }

    method Chunked(size: nat) returns (count: nat, working: StringBuilder)
      requires Valid() && 0 < size < |Text()|
      ensures fresh(working) && working.Valid()
           && working.fragments == Chunks(Text(), size) && count == |working.fragments|
      ensures forall i :: 0 <= i < |working.nodes| ==> fresh(working.nodes[i])
    {
      working := new StringBuilder();
      count := 0;
      var remaining := Length();
      var length, node, intra := Min(remaining, size), root, 0;
      ghost var text, p: nat, k: nat := Text(), 0, 0;
      ghost var all, tail := Chunks(text, size), Chunks(text[p..], size);
      while remaining > 0
        invariant 0 <= remaining && p + remaining == |text| && length == Min(remaining, size)
        invariant node == At(nodes, k) && Cursor(fragments, k, intra, p)
        invariant fresh(working) && working.Valid() && count == |working.fragments|
        invariant forall i :: 0 <= i < |working.nodes| ==> fresh(working.nodes[i])
        invariant tail == Chunks(text[p..], size) && working.fragments + tail == all
      {
        tail := Chunks(text[p + length..], size);
        node, intra, k := NextChunk(working, node, intra, length, size, k, p, tail);
        count := count + 1;
        remaining, p := remaining - length, p + length;
        length := Min(remaining, size);
      }
    }

    /** Fills one chunk and adds it to the working object; tail is what is still to come. */
    method NextChunk(working: StringBuilder, node: StrLL?, intra: nat, length: nat, ghost size: nat,
                     ghost k: nat, ghost p: nat, ghost tail: seq<Bytes>)
      returns (node': StrLL?, intra': nat, ghost k': nat)
      requires Valid() && working != this && working.Valid()
      requires node == At(nodes, k) && Cursor(fragments, k, intra, p)
      requires 0 < size && p < |Text()| && length == Min(|Text()| - p, size)
            && tail == Chunks(Text()[p + length..], size)
      modifies working, working.nodes`next
      ensures working.Valid() && |working.fragments| == |old(working.fragments)| + 1
      ensures working.fragments + tail == old(working.fragments) + Chunks(Text()[p..], size)
      ensures Grown(working.nodes, old(working.nodes))
      ensures node' == At(nodes, k') && Cursor(fragments, k', intra', p + length)
    {
      var chunk;
      chunk, node', intra', k' := ReadBytes(node, intra, length, k, p);
      ChunkStep(Text(), p, size);
      Associative(working.fragments, [chunk], tail);
      var nu := working.Append(chunk);
    }

    // ----- implode

    /** Joins the fragments with a delimiter between them.  With 65536 fragments or more, unless the
        16-bit count shows fewer than two, the buffer would be too small. */
    method Implode(delim: Bytes) returns (count: nat)
      requires Valid() && (Joins(fragments, delim) ==> |fragments| < P16)
      modifies this
      ensures Valid() && fragments == Imploded(old(fragments), delim) && Grown(nodes, old(nodes))
      ensures delim != [] && |old(Text())| > 2 && Counted(|old(fragments)|) > 1 ==>
        count == |old(fragments)| && fragments == [Join(old(fragments), delim)]
      ensures delim == [] || |old(Text())| <= 2 || Counted(|old(fragments)|) <= 1 ==>
        count == 0 && fragments == old(fragments)
    {
      count := 0;
      var length := Length();
      var tokens := Count();
      if |delim| > 0 && length > 2 && tokens > 1 {
        var joined;
        joined, count := JoinFragments(delim, length, tokens);
        Become(joined);
      }
    }

    /** Copies the fragments and the delimiters between them into a buffer of just the right size. */
    method JoinFragments(delim: Bytes, length: nat, tokens: nat) returns (joined: Bytes, count: nat)
      requires Valid() && delim != [] && length == |Text()| && 0 < tokens == |fragments| < P16
      ensures joined == Join(fragments, delim) != [] && count == |fragments|
    {
      JoinLength(fragments, delim);
      JoinIsNotEmpty(fragments, delim);
      var buf := new Byte[(tokens - 1) * |delim| + length];
      var offset := 0;
      count := 0;
      var node := root;
      while node != null
        invariant 0 <= offset <= buf.Length && count <= |nodes| && node == At(nodes, count)
        invariant buf[..offset] + Join(fragments[count..], delim) == Join(fragments, delim)
        decreases |nodes| - count
      {
        offset := JoinNext(buf, offset, node, delim, count);
        node := node.next;
        count := count + 1;
      }
      joined := buf[..];
    }

    /** Copies one fragment into the buffer, and a delimiter if there is another fragment. */
    method JoinNext(buf: array<Byte>, offset: nat, node: StrLL, delim: Bytes, ghost k: nat) returns (behind: nat)
      requires Valid() && k < |nodes| && node == nodes[k]
      requires offset + |Join(fragments[k..], delim)| <= buf.Length
      modifies buf
      ensures behind <= buf.Length
      ensures buf[..behind] + Join(fragments[k + 1..], delim) == old(buf[..offset]) + Join(fragments[k..], delim)
    {
      JoinStep(buf[..offset], fragments, k, delim);
      Put(buf, offset, node.str);
      behind := offset + |node.str|;
      if node.next != null {
        Put(buf, behind, delim);
        behind := behind + |delim|;
      }
    }

    // ----- split

    /** Cuts the string into tokens, as strtok does. */
    method Split(delims: Bytes) returns (count: nat)
      requires Valid()
      modifies this
      ensures Valid() && fragments == SplitUp(old(fragments), delims) && Grown(nodes, old(nodes))
      ensures count == |Tokens(BeforeNul(old(Text())), Members(delims))|
      ensures count > 0 ==> fragments == Tokens(BeforeNul(old(Text())), Members(delims))
      ensures count == 0 ==> fragments == if old(Text()) == [] then [] else [old(Text())]
    {
      count := 0;
      NonEmptyText(fragments);
      if root != null {
        Collapse();
        var text := BeforeNul(root.str);
        var token, next := Strtok(text, 0, delims);
        assert text[0..] == text;
        if token != [] {
          Clear();
          count := ConcatTokens(text, token, next, delims);
        }
      }
    }

    /** Adds a token and all that follow it. */
    method ConcatTokens(text: Bytes, first: Bytes, from: nat, delims: Bytes) returns (count: nat)
      requires Valid() && nodes == [] && first != [] && from <= |text|
      modifies this
      ensures Valid() && count == |fragments| && forall i :: 0 <= i < |nodes| ==> fresh(nodes[i])
      ensures fragments == [first] + Tokens(text[from..], Members(delims))
    {
      count := 0;
      var token, next := first, from;
      ghost var all := [first] + Tokens(text[from..], Members(delims));
      ghost var rest := all;
      while token != []
        invariant 0 <= next <= |text| && Valid() && count == |fragments|
        invariant forall i :: 0 <= i < |nodes| ==> fresh(nodes[i])
        invariant token != [] ==> rest == [token] + Tokens(text[next..], Members(delims))
        invariant token == [] ==> rest == []
        invariant fragments + rest == all
        decreases |text| - next + |token|
      {
        ghost var done, tail := fragments, Tokens(text[next..], Members(delims));
        var nu := Append(token);
        count := count + 1;
        assert fragments + tail == all by {
          Associative(done, [token], tail);
        }
        rest := tail;
        token, next := Strtok(text, next, delims);
      }
      assert fragments + [] == fragments;
    }

    // ----- replace

    /** Replaces what the scan finds. */
    method Replace(needle: Bytes, rep: Bytes) returns (count: nat)
      requires Valid()
      modifies this
      ensures Valid() && Grown(nodes, old(nodes))
      ensures count == if needle == [] then 0 else |Hits(old(Text()), needle, 0, 0)|
      ensures count == 0 ==> fragments == old(fragments)
      ensures count > 0 ==>
        && SpansFrom(old(Text()), 0, Hits(old(Text()), needle, 0, 0), |needle|)
        && fragments == Pieces(old(Text()), 0, Hits(old(Text()), needle, 0, 0), |needle|, rep)
        && Text() == Spliced(old(Text()), 0, Hits(old(Text()), needle, 0, 0), |needle|, rep)
    {
      count := 0;
      var length := Length();
      if 0 < length && length >= |needle| && 0 < |needle| {
        var working;
        count, working := Replaced(needle, rep);
        if 0 < count {
          assert Text()[0..0] == needle[..0];
          RebuiltIsPieces(Text(), needle, 0, 0, 0, rep);
          PiecesMakeSpliced(Text(), 0, Hits(Text(), needle, 0, 0), |needle|, rep);
          Adopt(working);
        }
      } else if needle != [] {
        TooShort(Text(), needle, 0, 0);
      }
    }

    method Replaced(needle: Bytes, rep: Bytes) returns (count: nat, working: StringBuilder)
      requires Valid() && 0 < |needle| <= |Text()|
      ensures fresh(working) && working.Valid() && count == |Hits(Text(), needle, 0, 0)|
      ensures forall i :: 0 <= i < |working.nodes| ==> fresh(working.nodes[i])
      ensures count > 0 ==> working.fragments == Rebuilt(Text(), needle, 0, 0, 0, rep)
    {
      working := new StringBuilder();
      var length := Length();
      var s := Search(length, root, 0, 0, 0, 0, root, 0);
      ghost var k, copyK := 0, 0;
      ghost var all := Rebuilt(Text(), needle, 0, 0, 0, rep);
      while s.remaining > 0 && s.node != null
        invariant Searching(s, k, copyK, needle)
        invariant working.Valid() && fresh(working) && forall i :: 0 <= i < |working.nodes| ==> fresh(working.nodes[i])
        invariant working.fragments + StillToCome(s, needle, rep) == all
        invariant s.count + |StillToFind(s, needle)| == |Hits(Text(), needle, 0, 0)|
        decreases s.remaining, s.hit
      {
        s, k, copyK := ScanStep(working, length, s, k, copyK, needle, rep);
      }
      CursorAtEnd(fragments, k, s.intra, |Text()| - s.remaining);
      count := s.count;
      if 0 < count {
        AddTail(working, length, s, copyK);
      }
    }

    /** What follows the last hit. */
    method AddTail(working: StringBuilder, length: nat, s: Search, ghost copyK: nat)
      requires Valid() && working != this && working.Valid() && s.copied <= |Text()| == length
      requires s.copied < length ==>
        0 <= s.copyIdx && s.copyNode == At(nodes, copyK) && Cursor(fragments, copyK, s.copyIdx, s.copied)
      modifies working, working.nodes`next
      ensures working.Valid() && working.fragments == old(working.fragments) + Piece(Text()[s.copied..])
      ensures Grown(working.nodes, old(working.nodes))
    {
      if s.copied < length {
        ghost var added := Emit(working, length - s.copied, [], s.copyNode, s.copyIdx, copyK, s.copied);
      }
      assert Text()[s.copied..length] == Text()[s.copied..];
      assert Piece(Text()[s.copied..]) + [] == Piece(Text()[s.copied..]);
    }

    /** The variables of the search loop point into the list: k and copyK number the nodes. */
    ghost predicate Searching(s: Search, k: nat, copyK: nat, needle: Bytes)
      reads this
    {
      && s.remaining <= |Text()| && s.hit < |needle| && s.copied + s.hit <= |Text()| - s.remaining
      && s.node == At(nodes, k) && Cursor(fragments, k, s.intra, |Text()| - s.remaining)
      && (s.copied < |Text()| ==>
            0 <= s.copyIdx && s.copyNode == At(nodes, copyK) && Cursor(fragments, copyK, s.copyIdx, s.copied))
    }

    ghost function StillToCome(s: Search, needle: Bytes, rep: Bytes): seq<Bytes>
      requires s.remaining <= |Text()| && s.hit < |needle| && s.copied + s.hit <= |Text()| - s.remaining
      reads this`fragments
    {
      Rebuilt(Text(), needle, |Text()| - s.remaining, s.hit, s.copied, rep)
    }

    ghost function StillToFind(s: Search, needle: Bytes): seq<nat>
      requires s.remaining <= |Text()| && s.hit < |needle| && s.copied + s.hit <= |Text()| - s.remaining
      reads this`fragments
    {
      Hits(Text(), needle, |Text()| - s.remaining, s.hit)
    }

    /** One turn of the search loop: a byte is compared, and a hit is recorded. */
    method ScanStep(working: StringBuilder, length: nat, s: Search, ghost k: nat, ghost copyK: nat,
                    needle: Bytes, rep: Bytes)
      returns (t: Search, ghost k': nat, ghost copyK': nat)
      requires Valid() && Searching(s, k, copyK, needle) && s.remaining > 0 && s.node != null && length == |Text()|
      requires working != this && working.Valid()
      modifies working, working.nodes`next
      ensures working.Valid()
      ensures Grown(working.nodes, old(working.nodes))
      ensures t.remaining < s.remaining || (t.remaining == s.remaining && t.hit < s.hit)
      ensures Searching(t, k', copyK', needle)
      ensures working.fragments + StillToCome(t, needle, rep)
           == old(working.fragments) + old(StillToCome(s, needle, rep))
      ensures t.count + |StillToFind(t, needle)| == s.count + |old(StillToFind(s, needle))|
    {
      var remaining, node, intra, hit;
      ghost var p;
      remaining, node, intra, hit, k', p :=
        Compare(needle, s.remaining, s.node, s.intra, s.hit, k, length - s.remaining, s.copied, rep);
      if hit == |needle| {
        var u := Search(remaining, node, intra, 0, s.count + 1, length - remaining, null, 0);
        assert |StillToFind(s, needle)| == 1 + |StillToFind(u, needle)|;
        t, copyK' := HitStep(working, length, s, u, copyK, needle, rep);
      } else {
        t, copyK' := Search(remaining, node, intra, hit, s.count, s.copied, s.copyNode, s.copyIdx), copyK;
      }
    }

    /** Records a hit and finds where the next copy starts; u has everything else. */
    method HitStep(working: StringBuilder, length: nat, s: Search, u: Search, ghost copyK: nat,
                   needle: Bytes, rep: Bytes)
      returns (t: Search, ghost copyK': nat)
      requires Valid() && length == |Text()| && working != this && working.Valid() && 0 < |needle|
      requires u.remaining <= length && u.hit == 0 && u.copied == length - u.remaining
            && s.copied + |needle| <= u.copied
      requires s.copied < length ==>
        0 <= s.copyIdx && s.copyNode == At(nodes, copyK) && Cursor(fragments, copyK, s.copyIdx, s.copied)
      modifies working, working.nodes`next
      ensures working.Valid()
      ensures Grown(working.nodes, old(working.nodes))
      ensures t == u.(copyNode := t.copyNode, copyIdx := t.copyIdx)
      ensures StillToFind(t, needle) == old(StillToFind(u, needle))
      ensures u.copied < length ==>
        0 <= t.copyIdx && t.copyNode == At(nodes, copyK') && Cursor(fragments, copyK', t.copyIdx, u.copied)
      ensures working.fragments + StillToCome(t, needle, rep)
        == old(working.fragments) + ((Piece(Text()[s.copied..u.copied - |needle|]) + Piece(rep))
             + old(StillToCome(u, needle, rep)))
    {
      var copyNode, copyIdx;
      copyNode, copyIdx, copyK' :=
        Record(working, s.copied, u.copied, |needle|, rep, s.copyNode, s.copyIdx, copyK, StillToCome(u, needle, rep));
      t := u.(copyNode := copyNode, copyIdx := copyIdx);
    }

    /** Records a hit that ends before nextByte, and finds where the next copy starts. */
    method Record(working: StringBuilder, copied: nat, nextByte: nat, needleLen: nat, rep: Bytes,
                  node: StrLL?, idx: int, ghost k: nat, ghost rest: seq<Bytes>)
      returns (nextNode: StrLL?, nextIdx: int, ghost nextK: nat)
      requires Valid() && working != this && working.Valid()
      requires copied + needleLen <= nextByte <= |Text()| && 0 < needleLen
      requires copied < |Text()| ==> 0 <= idx && node == At(nodes, k) && Cursor(fragments, k, idx, copied)
      modifies working, working.nodes`next
      ensures working.Valid()
      ensures working.fragments + rest
           == old(working.fragments) + ((Piece(Text()[copied..nextByte - needleLen]) + Piece(rep)) + rest)
      ensures Grown(working.nodes, old(working.nodes))
      ensures nextByte < |Text()| ==>
        0 <= nextIdx && nextNode == At(nodes, nextK) && Cursor(fragments, nextK, nextIdx, nextByte)
    {
      CursorAtEnd(fragments, 0, 0, 0);
      nextNode, nextIdx, nextK := Containing(root, nextByte, 0);
      Associative(working.fragments, Piece(Text()[copied..nextByte - needleLen]) + Piece(rep), rest);
      ghost var added := Emit(working, nextByte - copied - needleLen, rep, node, idx, k, copied);
    }

    /** Compares the current byte with the next byte of the needle and moves on.  A mismatch inside a
        partial match gives the byte back. */
    method CompareByte(needle: Bytes, remaining: nat, node: StrLL, intra: nat, hit: nat, ghost k: nat, ghost p: nat)
      returns (remaining': nat, node': StrLL?, intra': nat, hit': nat, ghost k': nat, ghost p': nat)
      requires Valid() && node == At(nodes, k) && Cursor(fragments, k, intra, p)
      requires hit < |needle| && hit <= p < |Text()| && 0 < remaining
      ensures hit' == if Text()[p] == needle[hit] then hit + 1 else 0
      ensures p' == if Text()[p] == needle[hit] || hit == 0 then p + 1 else p
      ensures remaining' + p' == remaining + p
      ensures node' == At(nodes, k') && Cursor(fragments, k', intra', p')
    {
      CursorStep(fragments, k, intra, p);
      remaining', node', intra', hit', k', p' := remaining - 1, node, intra + 1, hit + 1, k, p + 1;
      if node.str[intra] != needle[hit] {
        if 1 < hit' {
          remaining', intra', p' := remaining' + 1, intra' - 1, p;
        }
        hit' := 0;
      }
      if intra' >= |node.str| {
        intra', node', k' := 0, node.next, k + 1;
      }
    }

    /** The same, as a step of the scan. */
    method Compare(needle: Bytes, remaining: nat, node: StrLL, intra: nat, hit: nat,
                   ghost k: nat, ghost p: nat, ghost c: nat, ghost rep: Bytes)
      returns (remaining': nat, node': StrLL?, intra': nat, hit': nat, ghost k': nat, ghost p': nat)
      requires Valid() && node == At(nodes, k) && Cursor(fragments, k, intra, p)
      requires hit < |needle| && c + hit <= p < |Text()| && 0 < remaining
      ensures remaining' + p' == remaining + p && c + hit' <= p' <= |Text()| && hit' <= |needle|
      ensures p < p' || (p == p' && hit' < hit)
      ensures node' == At(nodes, k') && Cursor(fragments, k', intra', p')
      ensures StepFrom(Text(), needle, p, hit, c, rep, p', hit')
    {
      RebuiltStep(Text(), needle, p, hit, c, rep,
                  if Text()[p] == needle[hit] || hit == 0 then p + 1 else p,
                  if Text()[p] == needle[hit] then hit + 1 else 0);
      CursorStep(fragments, k, intra, p);
      remaining', node', intra', hit', k', p' := CompareByte(needle, remaining, node, intra, hit, k, p);
    }

    /** Adds a copy of some bytes of this string, and then the replacement, to a working object. */
    method Emit(working: StringBuilder, length: int, rep: Bytes, node: StrLL?, offset: int, ghost k: nat, ghost c: nat)
      returns (ghost added: seq<StrLL>)
      requires Valid() && working != this && working.Valid()
      requires 0 <= length && c + length <= |Text()|
      requires length > 0 ==> 0 <= offset && node == At(nodes, k) && Cursor(fragments, k, offset, c)
      modifies working, working.nodes`next
      ensures working.Valid()
           && working.fragments == old(working.fragments) + (Piece(Text()[c..c + length]) + Piece(rep))
      ensures working.nodes == old(working.nodes) + added && forall i :: 0 <= i < |added| ==> fresh(added[i])
    {
      added := [];
      if 0 < length {
        var chunk := CreateFrom(length, node, offset, k, c);
        if chunk != null {
          working.StackOntoList(chunk, [chunk], [chunk.str]);
          added := [chunk];
        }
      }
      if rep != [] {
        var nu := working.Append(rep);
        added := added + [nu];
      }
    }
  }

  /** One call of strtok on a string: the next token from a position on, [] if there is none, and
      where to go on from. */
  method Strtok(s: Bytes, from: nat, delims: Bytes) returns (token: Bytes, next: nat)
    requires from <= |s|
    ensures from <= next <= |s| && |token| <= next - from
    ensures Tokens(s[from..], Members(delims))
         == if token == [] then [] else [token] + Tokens(s[next..], Members(delims))
  {
    var start := from;
    while start < |s| && s[start] in delims
      invariant from <= start <= |s| && forall i :: from <= i < start ==> s[i] in delims
    {
      start := start + 1;
    }
    next := start;
    while next < |s| && s[next] !in delims
      invariant start <= next <= |s| && forall i :: start <= i < next ==> s[i] !in delims
    {
      next := next + 1;
    }
    token := s[start..next];
    TokenAt(s, from, start, next, delims);
  }

  /** The variables of the search loop: bytes left, where it reads, bytes matched, hits, and from where
      the next copy starts. */
  datatype Search = Search(remaining: nat, node: StrLL?, intra: nat, hit: nat,
                           count: nat, copied: nat, copyNode: StrLL?, copyIdx: int)

  lemma MovedApart(a: seq<StrLL>, b: seq<StrLL>, pos: nat, k: nat)
    requires pos + k <= |b| && Disjoint(a, b) && NoDuplicates(b)
    ensures Disjoint(a, Taken(b, pos, k)) && Disjoint(a, Kept(b, pos, k))
    ensures Disjoint(a + Taken(b, pos, k), Kept(b, pos, k))
  {
  }

  lemma CutIsDistinct(ns: seq<StrLL>, pos: nat, k: nat)
    requires pos + k <= |ns| && NoDuplicates(ns)
    ensures NoDuplicates(Kept(ns, pos, k)) && NoDuplicates(Taken(ns, pos, k))
    ensures Disjoint(Kept(ns, pos, k), Taken(ns, pos, k))
  {
  }

  /** The links and the contents of a list that has been cut before pos and after pos + k. */
  ghost predicate Severed(ns: seq<StrLL>, fr: seq<Bytes>, pos: nat, k: nat)
    reads ns
  {
    && |fr| == |ns| && 0 < k && pos + k <= |ns|
    && forall i {:trigger ns[i].next} {:trigger ns[i].str} :: 0 <= i < |ns| ==>
        && ns[i].str == fr[i]
        && ns[i].next == if i + 1 == pos then At(ns, pos + k) else if i + 1 == pos + k then null else At(ns, i + 1)
  }

  lemma TakenChain(ns: seq<StrLL>, fr: seq<Bytes>, pos: nat, k: nat)
    requires Severed(ns, fr, pos, k) && NoDuplicates(Taken(ns, pos, k))
    ensures Chain(ns[pos], Taken(ns, pos, k), Taken(fr, pos, k))
  {
  }

  lemma KeptChain(ns: seq<StrLL>, fr: seq<Bytes>, pos: nat, k: nat)
    requires Severed(ns, fr, pos, k) && NoDuplicates(Kept(ns, pos, k))
    ensures Chain(if pos == 0 then At(ns, k) else ns[0], Kept(ns, pos, k), Kept(fr, pos, k))
  {
  }

  lemma NonEmptyText(fr: seq<Bytes>)
    requires NonEmpty(fr)
    ensures Flatten(fr) == [] <==> fr == []
  {
  }

  lemma FlattenSnoc(fr: seq<Bytes>, k: nat)
    requires k < |fr|
    ensures Flatten(fr[..k + 1]) == Flatten(fr[..k]) + fr[k]
  {
    assert fr[..k + 1] == fr[..k] + [fr[k]];
    FlattenConcat(fr[..k], [fr[k]]);
    FlattenOne(fr[k]);
  }

  lemma FragmentSlice(fr: seq<Bytes>, k: nat, j: nat, n: nat)
    requires k < |fr| && j + n <= |fr[k]|
    ensures var p := Offset(fr, k) + j; p + n <= |Flatten(fr)| && Flatten(fr)[p..p + n] == fr[k][j..j + n]
  {
    FragmentInPlace(fr, k);
    SliceWithin(Flatten(fr), Offset(fr, k), fr[k], j, n);
  }

  lemma SliceWithin<T>(s: seq<T>, o: nat, f: seq<T>, j: nat, n: nat)
    requires o + |f| <= |s| && s[o..o + |f|] == f && j + n <= |f|
    ensures s[o + j..o + j + n] == f[j..j + n]
  {
    SliceOfSlice(s, o, o + |f|, j, n);
  }

  lemma SliceOfSlice<T>(s: seq<T>, a: nat, b: nat, j: nat, n: nat)
    requires a <= b <= |s| && j + n <= b - a
    ensures s[a..b][j..j + n] == s[a + j..a + j + n]
  {
    var t, u := s[a..b][j..j + n], s[a + j..a + j + n];
    assert |t| == |u|;
    forall i | 0 <= i < n ensures t[i] == u[i] {
      assert t[i] == s[a..b][j + i] == s[a + j + i];
    }
  }

  lemma SliceGrows<T>(s: seq<T>, a: nat, b: nat, c: nat)
    requires a <= b <= c <= |s|
    ensures s[a..c] == s[a..b] + s[b..c]
  {
  }

  /** Continues a copy of the text from start on, n bytes of which are in the buffer. */
  method CopyInto(buf: array<Byte>, n: nat, bytes: Bytes, ghost text: Bytes, ghost start: nat)
    requires n + |bytes| <= buf.Length && start + n + |bytes| <= |text|
    requires buf[..n] == text[start..start + n] && bytes == text[start + n..start + n + |bytes|]
    modifies buf
    ensures buf[..n + |bytes|] == text[start..start + n + |bytes|]
    ensures buf[n + |bytes|..] == old(buf[n + |bytes|..])
  {
    SliceGrows(text, start, start + n, start + n + |bytes|);
    forall i | 0 <= i < |bytes| {
      buf[n + i] := bytes[i];
    }
    assert buf[..n + |bytes|] == old(buf[..n]) + bytes;
  }

  predicate InRange(length: nat, offset: int, newLength: int) {
    offset >= 0 && newLength > 0 && offset + newLength <= length
  }

  lemma ChunkStep(s: Bytes, p: nat, n: nat)
    requires p < |s| && n > 0
    ensures var q := p + Min(|s| - p, n);
      Chunks(s[p..], n) == [s[p..q]] + Chunks(s[q..], n)
  {
    var q := p + Min(|s| - p, n);
    assert s[p..][..q - p] == s[p..q] && s[p..][q - p..] == s[q..];
    if q == |s| {
      assert s[q..] == [] && s[p..q] == s[p..];
    }
  }

  /** Writes bytes into a buffer behind what is there. */
  method Put(buf: array<Byte>, offset: nat, bytes: Bytes)
    requires offset + |bytes| <= buf.Length
    modifies buf
    ensures buf[..offset + |bytes|] == old(buf[..offset]) + bytes
  {
    forall i | 0 <= i < |bytes| {
      buf[offset + i] := bytes[i];
    }
    assert buf[..offset] == old(buf[..offset]);
  }

  lemma TokenAt(s: Bytes, from: nat, start: nat, next: nat, delims: Bytes)
    requires from <= start <= next <= |s|
    requires forall i :: from <= i < start ==> s[i] in delims
    requires forall i :: start <= i < next ==> s[i] !in delims
    requires start < |s| ==> s[start] !in delims
    requires next < |s| ==> s[next] in delims
    ensures Tokens(s[from..], Members(delims))
         == if start == next then [] else [s[start..next]] + Tokens(s[next..], Members(delims))
  {
    MembersAre(delims);
    TokensAfter(s, from, start, Members(delims));
    if start < next {
      TokenFrom(s, start, next, Members(delims));
    }
  }

  lemma TokensAfter(s: Bytes, from: nat, start: nat, m: set<Byte>)
    requires from <= start <= |s| && forall i :: from <= i < start ==> s[i] in m
    ensures Tokens(s[from..], m) == Tokens(s[start..], m)
  {
    Cut(s, from, start);
    SkipDelimiters(s[from..start], s[start..], m);
  }

  lemma TokenFrom(s: Bytes, start: nat, next: nat, m: set<Byte>)
    requires start < next <= |s| && forall i :: start <= i < next ==> s[i] !in m
    requires next < |s| ==> s[next] in m
    ensures Tokens(s[start..], m) == [s[start..next]] + Tokens(s[next..], m)
  {
    Cut(s, start, next);
    TokenThenRest(s[start..next], s[next..], m);
  }

  lemma Cut<T>(s: seq<T>, a: nat, b: nat)
    requires a <= b <= |s|
    ensures s[a..] == s[a..b] + s[b..]
  {
  }

  /** A string that is shorter than what is left of the needle holds no hit. */
  lemma {:induction false} TooShort(h: Bytes, needle: Bytes, p: nat, m: nat)
    requires m < |needle| && m <= p <= |h| < |needle|
    ensures Hits(h, needle, p, m) == []
    decreases |h| - p, m
  {
    if p < |h| {
      if h[p] == needle[m] {
        TooShort(h, needle, p + 1, m + 1);
      } else if m > 0 {
        TooShort(h, needle, p, 0);
      } else {
        TooShort(h, needle, p + 1, 0);
      }
    }
  }
}
