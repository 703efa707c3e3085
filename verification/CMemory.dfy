/** The C library calls and the byte-swapping utility used by generated code. */
module CMemory {
  import opened Bytes

  /** memset. `ok` says that the write lies inside `dst`; a run of the C code that gets to a write
      outside its storage is followed no further. */
  method Memset(dst: array<byte>, at: nat, v: byte, n: nat) returns (ok: bool)
    modifies dst
    ensures ok <==> at + n <= dst.Length
    ensures ok ==> forall i :: 0 <= i < dst.Length ==> dst[i] == if at <= i < at + n then v else old(dst[i])
  {
    ok := at + n <= dst.Length;
    if ok {
      forall i | at <= i < at + n {
        dst[i] := v;
      }
    }
  }

  /** memcpy, with the same convention. */
  method Memcpy(dst: array<byte>, at: nat, src: seq<byte>) returns (ok: bool)
    modifies dst
    ensures ok <==> at + |src| <= dst.Length
    ensures ok ==>
      forall i :: 0 <= i < dst.Length ==> dst[i] == if at <= i < at + |src| then src[i - at] else old(dst[i])
  {
    ok := at + |src| <= dst.Length;
    if ok {
      forall i | at <= i < at + |src| {
        dst[i] := src[i - at];
      }
    }
  }

  /** UtilityChangeEndian: swaps byte 0 with byte n-1, byte 1 with byte n-2, and so on. */
  method ChangeEndian(value: array<byte>, n: nat)
    requires n <= value.Length
    modifies value
    ensures value[..n] == Reverse(old(value[..n]))
    ensures value[n..] == old(value[n..])
  {
    var i := 0;
    while i < n / 2
      invariant 0 <= i <= n / 2
      invariant forall k :: 0 <= k < i ==> value[k] == old(value[n - 1 - k]) && value[n - 1 - k] == old(value[k])
      invariant forall k :: i <= k < n - i ==> value[k] == old(value[k])
      invariant forall k :: n <= k < value.Length ==> value[k] == old(value[k])
    {
      value[i], value[n - 1 - i] := value[n - 1 - i], value[i];
      i := i + 1;
    }
  }

  function Aligned(f: byte, src: seq<byte>, right: bool): (w: seq<byte>)
    requires |src| <= 32
    ensures |w| == 32
  {
    if right then Fill(f, 32 - |src|) + src else src + Fill(f, 32 - |src|)
  }

  /** memset of one word, memcpy of the value to its end or start, cursor += 32. */
  method PutWord(buf: array<byte>, at: nat, f: byte, src: seq<byte>, right: bool) returns (next: nat, ok: bool)
    requires |src| <= 32 && at <= buf.Length
    modifies buf
    ensures ok <==> at + 32 <= buf.Length
    ensures ok ==> next == at + 32 && buf[..next] == old(buf[..at]) + Aligned(f, src, right)
  {
    next := at;
    ok := Memset(buf, at, f, 32);
    if ok {
      ok := Memcpy(buf, if right then at + 32 - |src| else at, src);
      next := at + 32;
      assert buf[at..next] == Aligned(f, src, right);
      assert buf[..next] == buf[..at] + buf[at..next];
    }
  }

  /** A BUINT32 variable is swapped in place and copied to the end of a zeroed word. */
  method PutU32(buf: array<byte>, at: nat, v: nat) returns (next: nat, ok: bool)
    requires v < U32_MODULUS && at <= buf.Length
    modifies buf
    ensures ok <==> at + 32 <= buf.Length
    ensures ok ==> next == at + 32 && buf[..next] == old(buf[..at]) + Be(v, 32)
  {
    hide Be;
    ghost var before := buf[..at];
    var variable := new byte[4](i requires 0 <= i < 4 => Reverse(Be(v, 4))[i]);
    assert variable[..4] == Reverse(Be(v, 4));
    ChangeEndian(variable, 4);
    ReverseTwice(Be(v, 4));
    BeWordOfU32(v);
    next, ok := PutWord(buf, at, 0, variable[..4], true);
    assert ok ==> buf[..next] == before + Be(v, 32);
  }

  /** Variable-length contents: memset of the filled length, memcpy of the actual length, cursor
      moved by the filled length, whichever of the two is longer. */
  method PutPadded(buf: array<byte>, at: nat, bs: seq<byte>, filled: nat) returns (next: nat, ok: bool)
    requires at <= buf.Length
    modifies buf
    ensures ok <==> at + filled <= buf.Length && at + |bs| <= buf.Length
    ensures ok ==> next == at + filled
    ensures ok && |bs| <= filled ==> buf[..next] == old(buf[..at]) + (bs + Fill(0, filled - |bs|))
  {
    next := at;
    ok := Memset(buf, at, 0, filled);
    if ok {
      ok := Memcpy(buf, at, bs);
      next := at + filled;
      if ok && |bs| <= filled {
        assert buf[at..next] == bs + Fill(0, filled - |bs|);
        assert buf[..next] == buf[..at] + buf[at..next];
      }
    }
  }
}
