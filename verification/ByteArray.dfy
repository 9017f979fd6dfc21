/** `ByteArray`: a singly linked list of equal-sized chunks with a cached cursor node. */
module ByteBuffer {
  import opened Bytes
  import opened Chunks
  import opened BufferModel
  import opened Iovec

  class Node {
    const data: array<byte>
    const size: nat
    ghost const index: nat
    var next: Node?

    /** `i` is the chunk's number in its buffer. */
    constructor (s: nat, ghost i: nat)
      ensures fresh(data) && data.Length == size == s && next == null && index == i
    {
      index := i;
      data := new byte[s];
      size := s;
      next := null;
    }
  }

  /** `memcpy`. */
  method CopyInto(a: array<byte>, off: nat, bytes: seq<byte>)
    requires off + |bytes| <= a.Length
    modifies a
    ensures a[..] == Splice(old(a[..]), off, bytes)
  {
    forall i | 0 <= i < |bytes| {
      a[off + i] := bytes[i];
    }
    assert a[..off] == old(a[..])[..off];
    assert a[off..off + |bytes|] == bytes;
    assert a[off + |bytes|..] == old(a[..])[off + |bytes|..];
    assert a[..] == a[..off] + a[off..off + |bytes|] + a[off + |bytes|..];
  }

  /** Chunk number `j`, or the null pointer behind the last one. */
  ghost function At(chain: seq<Node>, j: nat): Node?
  {
    if j < |chain| then chain[j] else null
  }

  /** An acyclic chain of distinct chunks of `b` bytes each, holding `chunks`. */
  ghost predicate IsChain(chain: seq<Node>, chunks: seq<seq<byte>>, b: nat)
    reads chain, set n | n in chain :: n.data
  {
    && b > 0
    && |chain| > 0
    && |chunks| == |chain|
    && (forall i :: 0 <= i < |chain| ==>
          && chain[i].index == i
          && chain[i].size == b
          && chain[i].data.Length == b)
    && (forall i {:trigger chain[i].next} :: 0 <= i < |chain| ==> chain[i].next == At(chain, i + 1))
    && (forall i {:trigger chunks[i]} :: 0 <= i < |chunks| ==> chunks[i] == chain[i].data[..])
    && (forall i, j {:trigger chain[i].data, chain[j].data} :: 0 <= i < j < |chain| ==> chain[i].data != chain[j].data)
  }

  /** One `iovec`: `len` bytes of a chunk's storage from `off` on. */
  datatype IoVec = IoVec(base: array<byte>, off: nat, len: nat)

  class ByteArray {
    const baseSize: nat
    var position: nat
    var capacity: nat
    var size: nat
    var root: Node
    var cur: Node?
    var little: bool

    ghost var chain: seq<Node>
    ghost var chunks: seq<seq<byte>>
    ghost var lag: nat
    ghost var Repr: set<object>

    ghost predicate Linked()
      reads this, Repr
    {
      && this in Repr
      && (forall i :: 0 <= i < |chain| ==> chain[i] in Repr && chain[i].data in Repr)
      && IsChain(chain, chunks, baseSize)
      && root == chain[0]
      && capacity == |chain| * baseSize
    }

    /** Chunk number `j`, or the null pointer behind the last one. */
    ghost function NodeAt(j: nat): Node?
      reads this
    {
      At(chain, j)
    }

    ghost predicate Valid()
      reads this, Repr
    {
      && Linked()
      && position <= size <= capacity
      && lag <= position / baseSize
      && cur == NodeAt(position / baseSize - lag)
    }

    ghost function Flat(): seq<byte>
      reads this
    {
      Concat(chunks)
    }

    ghost function Model(): (v: View)
      requires Valid()
      reads this, Repr
      ensures v.Valid()
    {
      FlatLength();
      View(Flat(), |chain|, baseSize, position, size, lag)
    }

    lemma FlatLength()
      requires Linked()
      ensures Uniform(chunks, baseSize) && |Flat()| == |chain| * baseSize == capacity
    {
      ConcatLength(chunks, baseSize);
    }

    constructor (base: nat)
      requires base > 0
      ensures Valid() && fresh(Repr) && !little
      ensures |Flat()| == base
      ensures Model() == Fresh(base, Flat())
    {
      baseSize := base;
      position, capacity, size := 0, base, 0;
      var n := new Node(base, 0);
      root, cur := n, n;
      little := false;
      chain, chunks, lag := [n], [n.data[..]], 0;
      Repr := {this, n, n.data};
      new;
      FlatLength();
    }

    /** `memcpy` into the storage `a` of chunk `k`. */
    method Poke(a: array<byte>, ghost k: nat, off: nat, bytes: seq<byte>)
      requires Linked() && k < |chain| && a == chain[k].data && off + |bytes| <= baseSize
      modifies this`chunks, a
      ensures Linked() && chunks == old(chunks)[k := Splice(old(chunks)[k], off, bytes)]
    {
      CopyInto(a, off, bytes);
      chunks := chunks[k := a[..]];
    }

    method AddCapacity(n: nat) returns (ghost garbage: seq<byte>)
      requires Valid()
      modifies Repr
      ensures Valid() && fresh(Repr - old(Repr)) && little == old(little)
      ensures |garbage| == Growth(old(Model()), n) * baseSize
      ensures Model() == Grown(old(Model()), Growth(old(Model()), n), garbage)
    {
      garbage := [];
      FlatLength();
      if n == 0 {
        assert Flat() + garbage == Flat();
        return;
      }
      var oldCap := capacity - position;
      if oldCap >= n {
        assert Flat() + garbage == Flat();
        return;
      }
      BlockOf(position, |chain|, baseSize);
      var nodeCount := CeilDiv(n - oldCap, baseSize);
      var first;
      CeilPositive(n - oldCap, baseSize);
      first, garbage := Extend(nodeCount);
      FlatLength();
      if oldCap == 0 {
        cur := first;
        lag := 0;
      }
    }

    /** The growth loop; `first` is the first node it appended. */
    method Extend(nodeCount: nat) returns (first: Node?, ghost garbage: seq<byte>)
      requires Linked()
      modifies this`capacity, this`chain, this`chunks, this`Repr, chain
      ensures Linked() && fresh(Repr - old(Repr)) && old(Repr) <= Repr
      ensures |chain| == old(|chain|) + nodeCount && old(chain) <= chain
      ensures first == if nodeCount == 0 then null else NodeAt(old(|chain|))
      ensures |garbage| == nodeCount * baseSize && Flat() == old(Flat()) + garbage
    {
      var tail := LastNode();
      first, garbage := null, [];
      var i := 0;
      while i < nodeCount
        invariant Linked() && fresh(Repr - old(Repr)) && old(Repr) <= Repr
        invariant i <= nodeCount && |chain| == old(|chain|) + i && old(chain) <= chain
        invariant tail == chain[|chain| - 1] && (tail in old(chain) || fresh(tail))
        invariant first == if i == 0 then null else NodeAt(old(|chain|))
        invariant |garbage| == i * baseSize && Flat() == old(Flat()) + garbage
      {
        var node := AppendNode(tail);
        garbage := garbage + node.data[..];
        MulSucc(i, baseSize);
        if first == null {
          first := node;
        }
        tail := node;
        i := i + 1;
      }
    }

    method LastNode() returns (tail: Node)
      requires Linked()
      ensures tail == chain[|chain| - 1]
    {
      tail := root;
      ghost var k := 0;
      while tail.next != null
        invariant 0 <= k < |chain| && tail == chain[k]
        decreases |chain| - k
      {
        tail := tail.next;
        k := k + 1;
      }
    }

    /** One round of the growth loop: link a new chunk behind the last. */
    method AppendNode(tail: Node) returns (node: Node)
      requires Linked() && tail == chain[|chain| - 1]
      modifies this`capacity, this`chain, this`chunks, this`Repr, tail`next
      ensures Linked() && fresh(node) && fresh(node.data) && Repr == old(Repr) + {node, node.data}
      ensures chain == old(chain) + [node] && Flat() == old(Flat()) + node.data[..]
    {
      node := new Node(baseSize, |chain|);
      ConcatSplit(chunks, [node.data[..]]);
      ConcatOne(node.data[..]);
      tail.next := node;
      chain := chain + [node];
      chunks := chunks + [node.data[..]];
      Repr := Repr + {node, node.data};
      MulSucc(|old(chain)|, baseSize);
      capacity := capacity + baseSize;
    }

    /** The flat offset `at` lies `off` bytes into chunk `k`. */
    ghost predicate Locates(k: nat, off: nat, at: nat)
      reads this
    {
      off < baseSize && at == k * baseSize + off
    }

    lemma CursorLocates()
      requires Valid()
      ensures Locates(position / baseSize - lag, position % baseSize, Model().Target())
      ensures position < capacity || lag > 0 ==> position / baseSize - lag < |chain|
    {
      var q := position / baseSize;
      DivBasics(position, baseSize);
      assert (q - lag) * baseSize == q * baseSize - lag * baseSize;
      BlockOf(position, |chain|, baseSize);
    }

    /** Where the cursor belongs once `n` more bytes of chunk `k` are used. */
    lemma Advance(k: nat, off: nat, at: nat, n: nat) returns (k': nat, off': nat)
      requires Linked() && Locates(k, off, at) && off + n <= baseSize
      ensures k' == (if off + n == baseSize then k + 1 else k)
      ensures off' == (if off + n == baseSize then 0 else off + n)
      ensures Locates(k', off', at + n)
      ensures at + n < capacity ==> k' < |chain|
    {
      MulSucc(k, baseSize);
      k', off' := if off + n == baseSize then k + 1 else k, if off + n == baseSize then 0 else off + n;
      if k' >= |chain| {
        MulMonotone(|chain|, k', baseSize);
      }
    }

    /** The located chunk number is the one the quotient names. */
    lemma Settle(k: nat, off: nat, at: nat, pos: nat, l: nat)
      requires baseSize > 0 && Locates(k, off, at) && pos == at + l * baseSize
      ensures pos / baseSize == k + l && pos % baseSize == off
    {
      assert (k + l) * baseSize == k * baseSize + l * baseSize;
      DivUnique(pos, baseSize, k + l, off);
    }

    method Write(buf: seq<byte>) returns (ghost garbage: seq<byte>)
      requires Valid()
      modifies Repr
      ensures Valid() && fresh(Repr - old(Repr)) && little == old(little)
      ensures |garbage| == Growth(old(Model()), |buf|) * baseSize
      ensures Model() == AfterWrite(old(Model()), buf, garbage)
    {
      if |buf| == 0 {
        garbage := [];
        return;
      }
      ghost var v := Model();
      GrowthSuffices(v, |buf|);
      garbage := AddCapacity(|buf|);
      WriteLoop(buf, Model().Target());
    }

    /** `memcpy` at flat offset `at`, which lies in chunk `k`. */
    method PokeAt(a: array<byte>, off: nat, bytes: seq<byte>, ghost k: nat, ghost at: nat)
      requires Linked() && k < |chain| && a == chain[k].data
      requires at == k * baseSize + off && off + |bytes| <= baseSize
      modifies this`chunks, a
      ensures Linked()
      ensures at + |bytes| <= |old(Flat())|
      ensures Flat() == Splice(old(Flat()), at, bytes)
    {
      FlatLength();
      ConcatSplice(chunks, baseSize, k, off, bytes);
      Poke(a, k, off, bytes);
    }

    /** One round of the write loop: the flat string `s` gains `n` more bytes of `buf` at `at`. */
    method WriteRound(buf: seq<byte>, done: nat, npos: nat, ghost k: nat, ghost at: nat, ghost s: seq<byte>)
      returns (n: nat, npos': nat, ghost k': nat)
      requires Linked() && k < |chain| && cur == chain[k] && Locates(k, npos, at + done)
      requires done < |buf| && at + |buf| <= |s| == capacity
      requires Flat() == Splice(s, at, buf[..done])
      modifies this`position, this`cur, this`chunks, cur.data
      ensures Linked() && n == Min(baseSize - npos, |buf| - done)
      ensures position == old(position) + n
      ensures cur == NodeAt(k') && Locates(k', npos', at + done + n)
      ensures done + n < |buf| ==> k' < |chain|
      ensures Flat() == Splice(s, at, buf[..done + n])
    {
      n := Min(cur.size - npos, |buf| - done);
      npos' := if cur.size == npos + n then 0 else npos + n;
      ghost var off;
      k', off := Advance(k, npos, at + done, n);
      ExtendSplice(s, at, buf, done, n);
      PokeAt(cur.data, npos, buf[done..done + n], k, at + done);
      position, cur := position + n, if cur.size == npos + n then cur.next else cur;
    }

    /** The copy loop of `write` from the cursor on, and the final size update. */
    method WriteLoop(buf: seq<byte>, ghost at: nat)
      requires Valid() && |buf| > 0 && position + |buf| <= capacity
      requires at == Model().Target()
      modifies this`position, this`size, this`cur, this`chunks, Repr - {this}
      ensures Valid() && position == old(position) + |buf| && size == Max(old(size), position)
      ensures at + |buf| <= |old(Flat())|
      ensures Flat() == Splice(old(Flat()), at, buf)
    {
      FlatLength();
      CursorLocates();
      ghost var flat := Flat();
      ghost var k: nat := position / baseSize - lag;
      var npos: nat := position % baseSize;
      var bpos: nat, left: nat := 0, |buf|;
      assert Flat() == Splice(flat, at, buf[..bpos]);
      while left > 0
        invariant Linked() && bpos + left == |buf| && position == old(position) + bpos && size == old(size)
        invariant Locates(k, npos, at + bpos) && cur == NodeAt(k)
        invariant left > 0 ==> k < |chain|
        invariant Flat() == Splice(flat, at, buf[..bpos])
      {
        var n;
        n, npos, k := WriteRound(buf, bpos, npos, k, at, flat);
        bpos, left := bpos + n, left - n;
      }
      assert buf[..bpos] == buf;
      FinishWrite(k, npos, at + |buf|);
    }

    /** The size follows the position, and the cursor is where it belongs. */
    method FinishWrite(ghost k: nat, ghost npos: nat, ghost at: nat)
      requires Linked() && Locates(k, npos, at) && cur == NodeAt(k)
      requires position == at + lag * baseSize && position <= capacity && size <= capacity
      modifies this`size
      ensures Valid() && size == Max(old(size), position)
    {
      Settle(k, npos, at, position, lag);
      if position > size {
        size := position;
      }
    }

    /** One `memcpy` out of chunk `k` continues a flat slice. */
    lemma SliceRound(k: nat, off: nat, at: nat, done: nat, n: nat)
      requires Linked() && k < |chain| && Locates(k, off, at + done) && off + n <= baseSize
      ensures at + done + n <= |Flat()|
      ensures Flat()[at..at + done] + chunks[k][off..off + n] == Flat()[at..at + done + n]
    {
      FlatLength();
      ConcatSlice(chunks, baseSize, k, off, n);
    }

    method Read(n: nat) returns (r: Outcome<seq<byte>>)
      requires Valid()
      modifies this`position, this`cur, this`lag
      ensures Valid()
      ensures r == ReadResult(old(Model()), n)
      ensures Model() == AfterRead(old(Model()), n)
    {
      FlatLength();
      if n > size - position {
        return OutOfRange;
      }
      BlockOf(position, |chain|, baseSize);
      if cur == null {
        return BadAccess;
      }
      var out := [];
      if n > 0 {
        out := ReadLoop(n, Model().Target());
      }
      r := Ok(out);
    }

    /** A round of the cursor `read` loop that uses up its chunk and goes on to the next. */
    method ReadRound(npos: nat, left: nat, ghost k: nat, ghost at: nat, out: seq<byte>) returns (out': seq<byte>)
      requires Linked() && k < |chain| && cur == chain[k] && Locates(k, npos, at + |out|)
      requires left > baseSize - npos && at + |out| + left <= capacity
      requires at + |out| <= |Flat()| && out == Flat()[at..at + |out|]
      modifies this`position, this`cur
      ensures Linked() && position == old(position) + baseSize - npos
      ensures k + 1 < |chain| && Locates(k + 1, 0, at + |out'|) && cur == chain[k + 1]
      ensures |out'| == |out| + baseSize - npos && at + |out'| <= |Flat()| && out' == Flat()[at..at + |out'|]
    {
      var m := cur.size - npos;
      SliceRound(k, npos, at, |out|, m);
      ghost var k', off := Advance(k, npos, at + |out|, m);
      out' := out + cur.data[npos..npos + m];
      position, cur := position + m, cur.next;
    }

    /** The round that finishes a cursor `read`.  Its test for a used-up chunk compares the chunk size
        with the bytes left, not with `npos` plus the bytes left. */
    method ReadLast(npos: nat, left: nat, ghost k: nat, ghost at: nat, out: seq<byte>) returns (out': seq<byte>)
      requires Linked() && k < |chain| && cur == chain[k] && Locates(k, npos, at + |out|)
      requires 0 < left <= baseSize - npos
      requires position == at + |out| + lag * baseSize
      requires at + |out| <= |Flat()| && out == Flat()[at..at + |out|]
      modifies this`position, this`cur, this`lag
      ensures Linked() && position == old(position) + left
      ensures lag == old(lag) + if npos != 0 && left == baseSize - npos then 1 else 0
      ensures lag <= position / baseSize && cur == NodeAt(position / baseSize - lag)
      ensures |out'| == |out| + left && at + |out'| <= |Flat()| && out' == Flat()[at..at + |out'|]
    {
      SliceRound(k, npos, at, |out|, left);
      ghost var k', off := Advance(k, npos, at + |out|, left);
      out' := out + cur.data[npos..npos + left];
      position, cur := position + left, if cur.size == left then cur.next else cur;
      Settle(k', off, at + |out'|, position, lag);
      if npos != 0 && left == baseSize - npos {
        lag := lag + 1;
      }
    }

    /** The copy loop of the cursor `read`, its last round taken out of the loop. */
    method ReadLoop(n: nat, ghost at: nat) returns (out: seq<byte>)
      requires Valid() && 0 < n <= size - position
      requires at == Model().Target()
      modifies this`position, this`cur, this`lag
      ensures Valid() && position == old(position) + n
      ensures at + n <= |Flat()| && out == Flat()[at..at + n]
      ensures lag == old(lag) + if StopsAtBoundary(old(position), n, baseSize) then 1 else 0
    {
      FlatLength();
      CursorLocates();
      BlockOf(position, |chain|, baseSize);
      ghost var k: nat, start := position / baseSize - lag, position % baseSize;
      var npos: nat, left: nat := position % baseSize, n;
      out := [];
      while left > cur.size - npos
        invariant Linked() && |out| + left == n && position == old(position) + |out| && lag == old(lag)
        invariant k < |chain| && cur == chain[k] && Locates(k, npos, at + |out|)
        invariant at + |out| <= |Flat()| && out == Flat()[at..at + |out|]
        invariant if |out| == 0 then npos == start else npos == 0 && n > baseSize - start
        invariant left > 0
      {
        out := ReadRound(npos, left, k, at, out);
        k, npos, left := k + 1, 0, n - |out|;
      }
      out := ReadLast(npos, left, k, at, out);
    }

    /** Walk `at / baseSize` nodes from the root. */
    method NodeFor(at: nat) returns (node: Node?)
      requires Linked()
      ensures node == NodeAt(at / baseSize)
      ensures node == null <==> at >= |chain| * baseSize
    {
      QuotientBelow(at, |chain|, baseSize);
      DivBasics(at, baseSize);
      var nodeCount := at / baseSize;
      node := root;
      ghost var k: nat := 0;
      while nodeCount > 0
        invariant 0 <= nodeCount && k + nodeCount == at / baseSize && node == NodeAt(k)
      {
        if node == null {
          return;
        }
        node := node.next;
        k, nodeCount := k + 1, nodeCount - 1;
      }
    }

    /** The positional read: it walks from the root and leaves the cursor alone. */
    method ReadAt(n: nat, at: nat) returns (r: Outcome<seq<byte>>)
      requires Valid()
      ensures r == ReadAtResult(Model(), n, at)
    {
      FlatLength();
      if n > Remaining(size, at) {
        return OutOfRange;
      }
      var node := NodeFor(at);
      if node == null {
        return BadAccess;
      }
      DivBasics(at, baseSize);
      r := ReadFrom(node, n, at, at / baseSize);
    }

    /** Its copy loop, from the node of chunk `k` on. */
    method ReadFrom(start: Node, n: nat, at: nat, ghost k0: nat) returns (r: Outcome<seq<byte>>)
      requires Linked() && k0 < |chain| && start == chain[k0] && Locates(k0, at % baseSize, at)
      ensures r == if at + n > |Flat()| then BadAccess else Ok(Flat()[at..at + n])
    {
      FlatLength();
      ghost var k: nat := k0;
      var node, npos: nat, left: nat := start, at % baseSize, n;
      var out := [];
      SliceRound(k, npos, at, 0, 0);
      while left > node.size - npos
        invariant |out| + left == n && k < |chain| && node == chain[k] && Locates(k, npos, at + |out|)
        invariant at + |out| <= |Flat()| && out == Flat()[at..at + |out|]
      {
        if node.next == null {
          LastChunk(k, npos, at + |out|);
          return BadAccess;
        }
        out, k := ReadChunk(node, out, npos, k, at);
        left, node, npos := n - |out|, node.next, 0;
      }
      SliceRound(k, npos, at, |out|, left);
      r := Ok(out + node.data[npos..npos + left]);
    }

    /** The rest of chunk `k`, appended to what was read before it. */
    method ReadChunk(node: Node, out: seq<byte>, npos: nat, ghost k: nat, ghost at: nat)
      returns (out': seq<byte>, ghost k': nat)
      requires Linked() && k < |chain| && node == chain[k] && Locates(k, npos, at + |out|)
      requires at + |out| <= |Flat()| && out == Flat()[at..at + |out|]
      ensures k' == k + 1 && Locates(k', 0, at + |out'|) && |out'| == |out| + (baseSize - npos)
      ensures at + |out'| <= |Flat()| && out' == Flat()[at..at + |out'|]
    {
      SliceRound(k, npos, at, |out|, baseSize - npos);
      ghost var off;
      k', off := Advance(k, npos, at + |out|, baseSize - npos);
      out' := out + node.data[npos..];
    }

    lemma LastChunk(k: nat, npos: nat, at: nat)
      requires Linked() && k + 1 == |chain| && Locates(k, npos, at)
      ensures at + (baseSize - npos) == |Flat()|
    {
      FlatLength();
      MulSucc(k, baseSize);
    }

    method ToString() returns (r: Outcome<seq<byte>>)
      requires Valid()
      ensures r == ReadAtResult(Model(), size - position, position)
    {
      r := ReadAt(size - position, position);
    }

    method SetPosition(p: nat) returns (r: Outcome<()>)
      requires Valid()
      modifies this`position, this`size, this`cur, this`lag
      ensures Valid()
      ensures r == SetPositionResult(old(Model()), p)
      ensures Model() == AfterSetPosition(old(Model()), p)
    {
      FlatLength();
      if p > capacity {
        return OutOfRange;
      }
      var node := CursorFor(p);
      DivBasics(p, baseSize);
      position, size, cur, lag := p, Max(size, p), node, 0;
      r := Ok(());
    }

    /** The walk of `setPosition`: subtract chunk sizes, then step over a chunk that is used up. */
    method CursorFor(p: nat) returns (node: Node?)
      requires Linked() && p <= capacity
      ensures node == NodeAt(p / baseSize)
    {
      var cursor, pos := root, p;
      ghost var k: nat := 0;
      while pos > cursor.size
        invariant 0 <= pos && k < |chain| && cursor == chain[k] && p == k * baseSize + pos
      {
        MulSucc(k, baseSize);
        ChunkBelow(|chain|, baseSize, k + 1, 0, pos - baseSize);
        cursor := cursor.next;
        pos := pos - cursor.size;
        k := k + 1;
      }
      MulSucc(k, baseSize);
      DivUnique(p, baseSize, if pos == baseSize then k + 1 else k, if pos == baseSize then 0 else pos);
      node := if pos == cursor.size then cursor.next else cursor;
    }

    /** The first chunk is what is left of the contents when the others go. */
    lemma FirstChunk()
      requires Linked()
      ensures Uniform(chunks, baseSize) && |Flat()| == |chain| * baseSize >= baseSize
      ensures Flat()[..baseSize] == chunks[0] == Concat([chunks[0]])
    {
      FlatLength();
      MulMonotone(1, |chain|, baseSize);
      ConcatSlice(chunks, baseSize, 0, 0, baseSize);
      ConcatOne(chunks[0]);
    }

    /** Drops every chunk but the first. */
    method Clear()
      requires Valid()
      modifies Repr
      ensures Valid() && Repr <= old(Repr) && little == old(little)
      ensures Model() == AfterClear(old(Model()))
    {
      FirstChunk();
      root.next := null;
      position, size, capacity, cur := 0, 0, baseSize, root;
      chain, chunks, lag := [root], [chunks[0]], 0;
      Repr := {this, root, root.data};
    }

    /** The entries of `iov` are the segments `segs` of this buffer. */
    ghost predicate Points(iov: seq<IoVec>, segs: seq<Seg>)
      reads this
    {
      && |iov| == |segs|
      && InChunks(segs, |chain|, baseSize)
      && forall i :: 0 <= i < |iov| ==> iov[i] == IoVec(chain[segs[i].chunk].data, segs[i].off, segs[i].len)
    }

    /** The list-building loop shared by the three buffer getters. */
    method Walk(start: Node, off: nat, len: nat, ghost k0: nat) returns (r: Outcome<seq<IoVec>>)
      requires Linked() && k0 < |chain| && start == chain[k0] && off < baseSize && len > 0
      ensures r.Ok? <==> Segments(|chain|, baseSize, k0, off, len).Ok?
      ensures r.Ok? ==> Points(r.value, Segments(|chain|, baseSize, k0, off, len).value)
      ensures !r.Ok? ==> r == BadAccess
    {
      ghost var all, done: seq<Seg>, k: nat := Segments(|chain|, baseSize, k0, off, len), [], k0;
      var node, npos: nat, iov := start, off, [];
      assert all.Ok? ==> done + all.value == all.value;
      while node.size - npos < len
        invariant k < |chain| && node == chain[k] && npos < baseSize
        invariant Points(iov, done)
        invariant all == Behind(done, Segments(|chain|, baseSize, k, npos, len))
        decreases |chain| - k
      {
        SegmentsRound(done, |chain|, baseSize, k, npos, len);
        iov := iov + [IoVec(node.data, npos, node.size - npos)];
        done := done + [Seg(k, npos, baseSize - npos)];
        if node.next == null {
          return BadAccess;
        }
        node, npos, k := node.next, 0, k + 1;
      }
      r := Ok(iov + [IoVec(node.data, npos, len)]);
    }

    method GetReadBuffers(len: nat) returns (n: nat, r: Outcome<seq<IoVec>>, ghost segs: seq<Seg>)
      requires Valid()
      ensures n == Min(len, size - position)
      ensures r.Ok? <==> ReadOffer(Model(), len).Ok?
      ensures !r.Ok? ==> r == BadAccess
      ensures r.Ok? ==> Points(r.value, segs) && Uniform(chunks, baseSize)
      ensures r.Ok? ==> Gather(chunks, baseSize, segs) == ReadOffer(Model(), len).value
    {
      FlatLength();
      n, segs := Min(len, size - position), [];
      if n == 0 {
        return n, Ok([]), [];
      }
      CursorLocates();
      TargetOffset(Model());
      ghost var k: nat := position / baseSize - lag;
      SegmentsOffer(chunks, baseSize, k, position % baseSize, n);
      r := Walk(cur, position % baseSize, n, k);
      if r.Ok? {
        segs := Segments(|chain|, baseSize, k, position % baseSize, n).value;
      }
    }

    /** The walk for `n` bytes from flat offset `at` on. */
    ghost function WalkFrom(at: nat, n: nat): Outcome<seq<Seg>>
      requires Linked()
      reads this, Repr
    {
      DivBasics(at, baseSize);
      if n == 0 then Ok([]) else Segments(|chain|, baseSize, at / baseSize, at % baseSize, n)
    }

    /** The positional list: it starts from the root and does not depend on the cursor. */
    method GetReadBuffersAt(len: nat, at: nat) returns (n: nat, r: Outcome<seq<IoVec>>)
      requires Valid()
      ensures n == Min(len, Remaining(size, at))
      ensures var walk := WalkFrom(at, n);
              if walk.Ok? then r.Ok? && Points(r.value, walk.value) else r == BadAccess
    {
      n := Min(len, Remaining(size, at));
      if n == 0 {
        return n, Ok([]);
      }
      var node := NodeFor(at);
      DivBasics(at, baseSize);
      if node == null {
        return n, BadAccess;
      }
      r := Walk(node, at % baseSize, n, at / baseSize);
    }

    /** Room for `len` bytes, and the list of segments that starts at the cursor. */
    method GetWriteBuffers(len: nat) returns (r: Outcome<seq<IoVec>>, ghost segs: seq<Seg>, ghost garbage: seq<byte>)
      requires Valid()
      modifies Repr
      ensures Valid() && fresh(Repr - old(Repr)) && little == old(little)
      ensures |garbage| == Growth(old(Model()), len) * baseSize
      ensures Model() == Grown(old(Model()), Growth(old(Model()), len), garbage)
      ensures len == 0 ==> r == Ok([])
      ensures len > 0 ==> (r.Ok? <==> Offered(baseSize, position % baseSize, len).Ok?)
      ensures !r.Ok? ==> r == BadAccess
      ensures r.Ok? ==> Points(r.value, segs) && Adjacent(segs, baseSize, Model().Target())
      ensures r.Ok? && len > 0 ==> Total(segs) == Offered(baseSize, position % baseSize, len).value
    {
      GrowthSuffices(Model(), len);
      garbage := AddCapacity(len);
      segs := [];
      if len == 0 {
        return Ok([]), [], garbage;
      }
      FlatLength();
      CursorLocates();
      ghost var k: nat := position / baseSize - lag;
      SegmentsOffer(chunks, baseSize, k, position % baseSize, len);
      r := Walk(cur, position % baseSize, len, k);
      if r.Ok? {
        segs := Segments(|chain|, baseSize, k, position % baseSize, len).value;
        SegmentsAdjacent(|chain|, baseSize, k, position % baseSize, len, Model().Target());
        GatherTotal(chunks, baseSize, segs);
      }
    }

    /** The bytes `sendmsg` sees through a list. */
    method Collect(iov: seq<IoVec>, ghost segs: seq<Seg>) returns (data: seq<byte>)
      requires Linked() && Points(iov, segs)
      ensures Uniform(chunks, baseSize) && data == Gather(chunks, baseSize, segs)
    {
      FlatLength();
      data := [];
      var i := |iov|;
      while i > 0
        invariant 0 <= i <= |iov| && data == Gather(chunks, baseSize, segs[i..])
      {
        i := i - 1;
        assert segs[i..][1..] == segs[i + 1..];
        data := iov[i].base[iov[i].off..iov[i].off + iov[i].len] + data;
      }
      assert segs[0..] == segs;
    }

    /** What `recvmsg` stores through a list: `data` from flat offset `at` on. */
    method Scatter(iov: seq<IoVec>, data: seq<byte>, ghost segs: seq<Seg>, ghost at: nat)
      requires Linked() && Points(iov, segs) && Adjacent(segs, baseSize, at) && |data| <= Total(segs)
      requires at + |data| <= |Flat()|
      modifies this`chunks, Repr - {this}
      ensures Linked() && Flat() == Splice(old(Flat()), at, data)
      decreases |iov|
    {
      FlatLength();
      if |data| == 0 {
        assert Splice(Flat(), at, data) == Flat();
        return;
      }
      var m := Min(iov[0].len, |data|);
      ExtendSplice(Flat(), at, data, m, |data| - m);
      assert data[..|data|] == data && data[m..m + (|data| - m)] == data[m..];
      PokeAt(iov[0].base, iov[0].off, data[..m], segs[0].chunk, at);
      if m < |data| {
        Scatter(iov[1..], data[m..], segs[1..], at + m);
      }
    }
  }
}
