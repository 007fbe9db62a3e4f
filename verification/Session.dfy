/** iosend and sendbuf of session in ec_netss_base.h: non-blocking sends with the rest kept in an io_buffer. */
module Sessions {
  import opened Bytes
  import opened Alloctor
  import opened IoBuffers

  class Session {
    const sndbuf: IoBuffer
    ghost var wire: seq<byte>      // what the socket has taken

    constructor (b: IoBuffer)
      requires b.Valid()
      ensures sndbuf == b && wire == []
    {
      sndbuf, wire := b, [];
    }

    // Everything taken over so far, sent or still buffered.
    ghost function Pending(): seq<byte>
      reads this, sndbuf, sndbuf.blks, set b | b in sndbuf.blks :: b.data
    {
      wire + sndbuf.Content()
    }

    // send_non_block: an error, or some prefix of the data goes out.
    method SendNonBlock(d: seq<byte>) returns (ns: int)
      modifies this`wire
      ensures -1 <= ns <= |d| && wire == old(wire) + if ns < 0 then [] else d[..ns]
    {
      ns := *;
      if ns < 0 || ns > |d| {
        ns := -1;
      } else {
        wire := wire + d[..ns];
      }
      assert ns < 0 ==> wire == wire + [];
    }

    lemma Apart()
      ensures this !in sndbuf.pallocator.Repr() && this !in sndbuf.Nodes() && |wire| <= |Pending()|
    {
    }

    // The socket is asked; the buffer is untouched.
    method TrySend(pkg: seq<byte>) returns (ns: int)
      requires sndbuf.Valid()
      modifies this`wire
      ensures sndbuf.Valid() && sndbuf.Content() == old(sndbuf.Content()) && sndbuf.Others() == old(sndbuf.Others())
      ensures -1 <= ns <= |pkg| && wire == old(wire) + if ns < 0 then [] else pkg[..ns]
    {
      hide IoBuffer.Valid, IoBuffer.Content, IoBuffer.Others;
      Apart();
      ns := SendNonBlock(pkg);
    }

    // One turn of sendbuf: what the socket takes leaves the buffer.
    method SendTurn() returns (ns: int, more: bool)
      requires sndbuf.Valid()
      modifies this`wire, sndbuf`phead, sndbuf`ptail, sndbuf`size, sndbuf`blks, sndbuf.blks, sndbuf.pallocator.Repr()
      ensures sndbuf.Valid() && Pending() == old(Pending()) && (more ==> ns > 0)
      ensures old(wire) <= wire && ns >= -1 && |wire| == |old(wire)| + (if ns < 0 then 0 else ns) && sndbuf.Others() == old(sndbuf.Others())
      ensures sndbuf.pallocator.Repr() <= old(sndbuf.pallocator.Repr()) && forall b :: b in sndbuf.blks ==> b in old(sndbuf.blks)
    {
      hide IoBuffer.Valid, IoBuffer.Content, IoBuffer.Others;
      Apart();
      var pd := sndbuf.Get();
      if pd == [] {
        return 0, false;
      }
      Moved(wire, sndbuf.Content(), pd);
      ns := TrySend(pd);
      if ns <= 0 {
        return ns, false;
      }
      sndbuf.FreeSize(ns);
      more := ns == |pd|;
    }

    // Bytes from the front of the buffer go to the end of the wire.
    lemma Moved(w: seq<byte>, content: seq<byte>, pd: seq<byte>)
      requires pd <= content
      ensures forall n :: 0 <= n <= |pd| ==> (w + pd[..n]) + content[n..] == w + content
      ensures w + [] == w
    {
      forall n | 0 <= n <= |pd| ensures (w + pd[..n]) + content[n..] == w + content {
        assert content == pd[..n] + content[n..];
      }
    }

    /** sendbuf: bytes go from the front of the buffer to the socket; none is lost, doubled or overtaken. */
    method SendBuf() returns (nr: int)
      requires sndbuf.Valid()
      modifies this`wire, sndbuf`phead, sndbuf`ptail, sndbuf`size, sndbuf`blks, sndbuf.blks, sndbuf.pallocator.Repr()
      ensures sndbuf.Valid() && Pending() == old(Pending()) && nr >= -1 && old(wire) <= wire
      ensures nr >= 0 ==> |wire| == |old(wire)| + nr
      ensures sndbuf.Others() == old(sndbuf.Others())
    {
      hide IoBuffer.Valid, IoBuffer.Content, IoBuffer.Others, Pending;
      nr := 0;
      var more := true;
      while more
        invariant sndbuf.Valid() && Pending() == old(Pending()) && nr >= 0 && |wire| == |old(wire)| + nr
        invariant sndbuf.Others() == old(sndbuf.Others()) && old(wire) <= wire
        invariant sndbuf.pallocator.Repr() <= old(sndbuf.pallocator.Repr()) && forall b :: b in sndbuf.blks ==> b in old(sndbuf.blks)
        decreases |Pending()| - |wire|, more
      {
        Apart();
        assert forall i :: 0 <= i < |sndbuf.blks| ==> sndbuf.blks[i] in sndbuf.blks;
        var ns;
        ns, more := SendTurn();
        if ns < 0 {
          return -1;
        }
        nr := nr + ns;
        Apart();
      }
    }

    // The buffer takes over what it can.
    method Buffer(pkg: seq<byte>) returns (ok: bool, n: nat)
      requires sndbuf.Valid()
      modifies sndbuf`phead, sndbuf`ptail, sndbuf`size, sndbuf`blks, sndbuf.blks, sndbuf.Nodes(), sndbuf.pallocator.Repr()
      ensures sndbuf.Valid() && wire == old(wire) && sndbuf.Others() == old(sndbuf.Others())
      ensures n <= |pkg| && ok == (n == |pkg|) && sndbuf.Content() == old(sndbuf.Content()) + pkg[..n]
      ensures forall o :: o in sndbuf.pallocator.Repr() ==> o in old(sndbuf.pallocator.Repr()) || fresh(o)
      ensures forall b :: b in sndbuf.blks ==> b as object in old(sndbuf.Nodes()) || fresh(b)
    {
      hide IoBuffer.Valid, IoBuffer.Content, IoBuffer.Others;
      Apart();
      ok, n := sndbuf.Append(pkg);
      sndbuf.NodesIn();
    }

    lemma Joined(w: seq<byte>, pkg: seq<byte>, ns: nat, n: nat)
      requires ns + n <= |pkg|
      ensures var p := (w + pkg[..ns]) + ([] + pkg[ns..][..n]);
              w + [] <= p <= w + [] + pkg && (ns + n == |pkg| ==> p == w + [] + pkg)
      ensures w + [] <= (w + pkg[..ns]) + []
    {
      assert (w + pkg[..ns]) + ([] + pkg[ns..][..n]) == w + pkg[..ns + n];
    }

    // An empty buffer: the socket gets the data first, the buffer the rest.
    method SendDirect(pkg: seq<byte>) returns (r: int)
      requires sndbuf.Valid() && sndbuf.phead == null
      modifies this`wire, sndbuf`phead, sndbuf`ptail, sndbuf`size, sndbuf`blks, sndbuf.blks, sndbuf.Nodes(), sndbuf.pallocator.Repr()
      ensures sndbuf.Valid() && sndbuf.Others() == old(sndbuf.Others())
      ensures old(Pending()) <= Pending() <= old(Pending()) + pkg && (r >= 0 ==> r == |pkg| && Pending() == old(Pending()) + pkg)
    {
      sndbuf.NothingBuffered();
      hide IoBuffer.Valid, IoBuffer.Content, IoBuffer.Others;
      var ns := TrySend(pkg);
      if ns < 0 {
        return -1;
      }
      var ok, n := Buffer(pkg[ns..]);
      Joined(old(wire), pkg, ns, n);
      r := if ok then |pkg| else -1;
    }

    lemma Extended(w: seq<byte>, content: seq<byte>, pkg: seq<byte>, n: nat)
      requires n <= |pkg|
      ensures var p := w + (content + pkg[..n]); w + content <= p <= w + content + pkg && (n == |pkg| ==> p == w + content + pkg)
    {
      assert w + (content + pkg[..n]) == (w + content) + pkg[..n];
    }

    // Data behind the buffer, then the socket.
    method SendBehind(pkg: seq<byte>) returns (r: int)
      requires sndbuf.Valid()
      modifies this`wire, sndbuf`phead, sndbuf`ptail, sndbuf`size, sndbuf`blks, sndbuf.blks, sndbuf.Nodes(), sndbuf.pallocator.Repr()
      ensures sndbuf.Valid() && sndbuf.Others() == old(sndbuf.Others())
      ensures old(Pending()) <= Pending() <= old(Pending()) + pkg && (r >= 0 ==> r == |pkg| && Pending() == old(Pending()) + pkg)
    {
      hide IoBuffer.Valid, IoBuffer.Content, IoBuffer.Others;
      var ok, n := Buffer(pkg);
      Extended(wire, old(sndbuf.Content()), pkg, n);
      if !ok {
        return -1;
      }
      assert forall i :: 0 <= i < |sndbuf.blks| ==> sndbuf.blks[i] in sndbuf.blks;
      var nr := SendBuf();
      r := if nr < 0 then -1 else |pkg|;
    }

    /** iosend: until an error, the bytes sent followed by the bytes buffered are exactly the bytes given; after
        an error they still are a prefix of them. */
    method IoSend(pkg: seq<byte>) returns (r: int)
      requires sndbuf.Valid()
      modifies this`wire, sndbuf`phead, sndbuf`ptail, sndbuf`size, sndbuf`blks, sndbuf.blks, sndbuf.Nodes(), sndbuf.pallocator.Repr()
      ensures sndbuf.Valid() && sndbuf.Others() == old(sndbuf.Others())
      ensures old(Pending()) <= Pending() <= old(Pending()) + pkg && (r >= 0 ==> r == |pkg| && Pending() == old(Pending()) + pkg)
    {
      hide *;
      sndbuf.EmptyMeans();
      if sndbuf.phead == null || sndbuf.phead.len == 0 {
        r := SendDirect(pkg);
      } else {
        r := SendBehind(pkg);
      }
    }
  }
}
