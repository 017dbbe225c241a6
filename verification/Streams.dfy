/**
  The buffered encoder and decoder of encoding.go, proved against the wire
  format: however the bytes fall across the two buffers, what is written and
  read is the format's.
 */
module Streams {
  import opened Types
  import opened Words
  import opened Work
  import opened Codec

  const ENCODER_BUFFER: nat := 1024

  const DECODER_BUFFER: nat := 64

  // ---------------------------------------------------------------- writing

  class Encoder {
    /** What the underlying stream has received, and how much it takes before it fails. */
    var stream: seq<Byte>
    const room: nat

    const buf: array<Byte>
    var n: nat
    var err: bool

    constructor (room: nat)
      ensures Valid() && Written() == [] && !err && this.room == room && stream == [] && fresh(buf)
    {
      stream, n, err := [], 0, false;
      this.room := room;
      buf := new Byte[ENCODER_BUFFER](_ => 0);
    }

    ghost predicate Valid()
      reads this
    {
      buf.Length == ENCODER_BUFFER && n <= ENCODER_BUFFER
    }

    /** Everything written so far, flushed or not. */
    ghost function Written(): seq<Byte>
      requires Valid()
      reads this, buf
    {
      stream + buf[..n]
    }

    method Flush()
      requires Valid()
      modifies this`stream, this`n, this`err
      ensures Valid() && (old(err) ==> err && stream == old(stream) && n == old(n))
      ensures !err ==> n == 0 && stream == Written() == old(Written())
      ensures err && !old(err) ==> |old(Written())| > room
    {
      if !err && n > 0 {
        var k := if |stream| + n <= room then n else if |stream| <= room then room - |stream| else 0;
        stream := stream + buf[..k];
        err := k < n;
        n := 0;
      }
    }

    method Write(p: seq<Byte>)
      requires Valid()
      modifies this`stream, this`n, this`err, buf
      ensures Valid() && (old(err) ==> err)
      ensures !err ==> Written() == old(Written()) + p
      ensures err && !old(err) ==> |old(Written()) + p| > room
    {
      var i := 0;
      while !err && i < |p|
        invariant Valid() && i <= |p| && (old(err) ==> err)
        invariant !err ==> Written() == old(Written()) + p[..i]
        invariant err && !old(err) ==> |old(Written()) + p| > room
        decreases |p| - i, !err
      {
        if n == buf.Length {
          Flush();
        }
        i := CopyIn(p, i);
      }
      assert p[..|p|] == p;
    }

    /** As much of p as fits. */
    method CopyIn(p: seq<Byte>, i: nat) returns (j: nat)
      requires Valid() && i < |p|
      modifies this`n, buf
      ensures Valid() && i <= j <= |p| && (j == |p| || n == ENCODER_BUFFER)
      ensures n == old(n) + j - i && Written() == old(Written()) + p[i..j]
    {
      var c := if |p| - i <= buf.Length - n then |p| - i else buf.Length - n;
      ghost var before := buf[..n];
      forall k | 0 <= k < c {
        buf[n + k] := p[i + k];
      }
      assert buf[..n] == before;
      assert buf[n..n + c] == p[i..i + c];
      assert buf[..n + c] == buf[..n] + buf[n..n + c];
      n := n + c;
      j := i + c;
    }
  }

  // ---------------------------------------------------------------- reading

  class Decoder {
    /** The limited reader. */
    var src: Source
    const buf: array<Byte>
    var err: bool

    constructor (src: Source)
      ensures Valid() && this.src == src && !err && fresh(buf)
    {
      this.src, err := src, false;
      buf := new Byte[DECODER_BUFFER](_ => 0);
    }

    ghost predicate Valid()
      reads this
    {
      buf.Length == DECODER_BUFFER
    }

    /** SetErr clears the buffer, so that later reads return zero. */
    method SetErr()
      requires Valid()
      modifies this`err, buf
      ensures Valid() && err
    {
      if !err {
        err := true;
        forall k | 0 <= k < buf.Length {
          buf[k] := 0;
        }
      }
    }

    /** io.ReadFull into the first bytes of the buffer. */
    method ReadFull(want: nat) returns (read: nat)
      requires Valid() && 0 < want <= DECODER_BUFFER && !err
      modifies this`src, this`err, buf
      ensures Valid() && read <= want && (err <==> read < want)
      ensures match ParseBytes(old(src), want) {
        case Parsed(b, rest) => !err && buf[..read] == b && src == rest
        case Failed => err
      }
    {
      var have := if |src.data| <= src.limit then |src.data| else src.limit;
      read := if want <= have then want else have;
      forall k | 0 <= k < read {
        buf[k] := src.data[k];
      }
      assert buf[..read] == src.data[..read];
      src := Source(src.data[read..], src.limit - read);
      err := read < want;
    }

    /** Read fills a slice of the given length, or sets the error. */
    method Read(length: nat) returns (p: seq<Byte>)
      requires Valid()
      modifies this`src, this`err, buf
      ensures Valid() && (old(err) ==> err && src == old(src))
      ensures !old(err) ==> match ParseBytes(old(src), length) {
        case Parsed(b, rest) => !err && p == b && src == rest
        case Failed => err
      }
    {
      p := [];
      while |p| < length && !err
        invariant Valid() && |p| <= length && (old(err) ==> err && src == old(src))
        invariant !old(err) && !err ==> ParseBytes(old(src), |p|) == Parsed(p, src)
        invariant !old(err) && err ==> ParseBytes(old(src), length).Failed?
        decreases length - |p|, !err
      {
        var want := if length - |p| > buf.Length then buf.Length else length - |p|;
        SplitParse(old(src), |p|, want, length);
        var read := ReadFull(want);
        p := p + buf[..read];
      }
    }

    method ReadUint8() returns (x: Byte)
      requires Valid()
      modifies this`src, this`err, buf
      ensures Valid() && (old(err) ==> err)
      ensures !old(err) ==> match ParseBytes(old(src), 1) {
        case Parsed(b, rest) => !err && x == b[0] && src == rest
        case Failed => err
      }
    {
      var p := Read(1);
      x := if err then buf[0] else p[0];
    }

    method ReadUint64() returns (x: nat)
      requires Valid()
      modifies this`src, this`err, buf
      ensures Valid() && (old(err) ==> err)
      ensures !old(err) ==> match ParseUint64(old(src)) {
        case Parsed(v, rest) => !err && x == v && src == rest
        case Failed => err
      }
    {
      hide FromLittle;
      var p := Read(8);
      x := FromLittle(if err then buf[..8] else p);
    }

    method ReadPrefix() returns (n: nat)
      requires Valid()
      modifies this`src, this`err, buf
      ensures Valid() && (old(err) ==> err)
      ensures !old(err) ==> match ParsePrefix(old(src)) {
        case Parsed(v, rest) => !err && n == v && src == rest
        case Failed => err
      }
    {
      hide FromLittle, ParseUint64;
      n := ReadUint64();
      if n > src.limit {
        SetErr();
        n := 0;
      }
    }
  }

  /** Reading in pieces is reading at once. */
  lemma SplitParse(s: Source, done: nat, want: nat, length: nat)
    requires done + want <= length && ParseBytes(s, done).Parsed?
    ensures var rest := ParseBytes(s, done).rest;
      match ParseBytes(rest, want) {
        case Parsed(b, more) => ParseBytes(s, done + want) == Parsed(ParseBytes(s, done).value + b, more)
        case Failed => ParseBytes(s, length).Failed?
      }
  {
    if done + want <= |s.data| {
      assert s.data[..done + want] == s.data[..done] + s.data[done..][..want];
      assert s.data[done..][want..] == s.data[done + want..];
    }
  }
}
