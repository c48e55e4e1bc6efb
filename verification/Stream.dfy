/**
  A seekable byte stream: what the archive code sees of files and handles.  Reads return what is left,
  writes are complete.
  */
module Stream {
  import opened Words

  /** The contents and the position of a stream. */
  datatype IoState = IoState(data: seq<byte>, pos: nat)

  /** `data` after `b` has been written at `p`; a gap beyond the end is filled with zeros. */
  function Overwrite(data: seq<byte>, p: nat, b: seq<byte>): seq<byte> {
    if b == [] then data
    else if p > |data| then data + seq(p - |data|, _ => 0) + b
    else data[..p] + b + (if p + |b| <= |data| then data[p + |b|..] else [])
  }

  /** `buf` with `b` in place of the bytes at `p`. */
  function Splice(buf: seq<byte>, p: nat, b: seq<byte>): seq<byte>
    requires p + |b| <= |buf|
  {
    buf[..p] + b + buf[p + |b|..]
  }

  /** The next bytes of a stream, at most `n`. */
  function Ahead(io: IoState, n: nat): (b: seq<byte>)
    ensures |b| <= n
  {
    if io.pos >= |io.data| then []
    else if io.pos + n <= |io.data| then io.data[io.pos..io.pos + n]
    else io.data[io.pos..]
  }

  function AfterRead(io: IoState, n: nat): IoState {
    io.(pos := io.pos + |Ahead(io, n)|)
  }

  function AfterWrite(io: IoState, b: seq<byte>): IoState {
    IoState(Overwrite(io.data, io.pos, b), io.pos + |b|)
  }

  /** Two writes in a row are one write. */
  lemma OverwriteAppend(data: seq<byte>, p: nat, b: seq<byte>, c: seq<byte>)
    ensures Overwrite(Overwrite(data, p, b), p + |b|, c) == Overwrite(data, p, b + c)
  {
    if b == [] {
      assert b + c == c;
    } else if c == [] {
      assert b + c == b;
    } else if p > |data| {
    } else {
      assert p + |b| <= |Overwrite(data, p, b)|;
    }
  }

  /** Going back over the first part of a write with bytes of the same length replaces just that part. */
  lemma OverwriteAgain(data: seq<byte>, p: nat, b: seq<byte>, c: seq<byte>, b': seq<byte>)
    requires |b'| == |b|
    ensures Overwrite(Overwrite(data, p, b + c), p, b') == Overwrite(data, p, b' + c)
  {
    if b == [] {
      assert b + c == c == b' + c;
    }
  }

  /** What a write leaves alone. */
  lemma OverwriteFrame(data: seq<byte>, p: nat, b: seq<byte>)
    requires p <= |data|
    ensures var r := Overwrite(data, p, b);
            && |r| >= p + |b| && r[..p] == data[..p] && r[p..p + |b|] == b
            && (p + |b| <= |data| ==> |r| == |data| && r[p + |b|..] == data[p + |b|..])
            && (p + |b| > |data| ==> |r| == p + |b|)
  {}

  /** A write behind the end fills the gap with zeros. */
  lemma OverwriteGap(data: seq<byte>, p: nat, b: seq<byte>)
    requires |data| < p && b != []
    ensures var r := Overwrite(data, p, b);
            |r| == p + |b| && r[..|data|] == data && r[p..] == b && forall k :: |data| <= k < p ==> r[k] == 0
  {}

  class Io {
    var data: seq<byte>
    var pos: nat

    constructor (data: seq<byte>)
      ensures State() == IoState(data, 0)
    {
      this.data := data;
      pos := 0;
    }

    ghost function State(): IoState
      reads this
    {
      IoState(data, pos)
    }

    /** Reads up to `size` bytes into `buffer` at `offset`. */
    method Read(buffer: array<byte>, offset: nat, size: nat) returns (n: nat)
      requires offset + size <= buffer.Length
      modifies this`pos, buffer
      ensures State() == AfterRead(old(State()), size)
      ensures n == |Ahead(old(State()), size)|
      ensures buffer[..] == Splice(old(buffer[..]), offset, Ahead(old(State()), size))
    {
      var b := if pos >= |data| then [] else if pos + size <= |data| then data[pos..pos + size] else data[pos..];
      n := |b|;
      ghost var was := buffer[..];
      forall i | 0 <= i < n {
        buffer[offset + i] := b[i];
      }
      assert buffer[..] == Splice(was, offset, b);
      pos := pos + n;
    }

    method Write(b: seq<byte>)
      modifies this
      ensures State() == AfterWrite(old(State()), b)
    {
      if b != [] {
        if pos > |data| {
          data := data + seq(pos - |data|, _ => 0) + b;
        } else {
          data := data[..pos] + b + (if pos + |b| <= |data| then data[pos + |b|..] else []);
        }
      }
      pos := pos + |b|;
    }

    method Seek(p: nat)
      modifies this`pos
      ensures State() == old(State()).(pos := p)
    {
      pos := p;
    }

    method Tell() returns (p: nat)
      ensures p == State().pos
    {
      p := pos;
    }
  }
}
