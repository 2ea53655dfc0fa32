/** Reading a file through chunks of a fixed size. */
module FileRead {
  import opened Wrappers

  const KIB: nat := 1024

  /** At most n bytes of the file from `off`: what pread gives. */
  function Piece(file: seq<Byte>, off: nat, n: nat): (s: seq<Byte>)
    ensures |s| <= n
    ensures |s| == n || (off + |s| == |file| || s == [])
    ensures off + |s| <= |file| || s == []
    ensures off + n <= |file| ==> |s| == n
    ensures forall k :: 0 <= k < |s| ==> s[k] == file[off + k]
  {
    if off >= |file| then []
    else if off + n >= |file| then file[off..]
    else file[off..off + n]
  }

  /** The server's /f: a length and an offset in KiB, both bounded; None is status 400. */
  function Serve(file: seq<Byte>, lenkib: nat, offsetkib: nat, maxReply: nat): Option<seq<Byte>> {
    if lenkib > maxReply / 1024 then None
    else if offsetkib > 0xFFFF_FFFF_FFFF_FFFF / 1024 then None
    else Some(Piece(file, offsetkib * KIB, lenkib * KIB))
  }

  /** The server refuses exactly what is beyond its limits. */
  lemma ServeExactly(file: seq<Byte>, lenkib: nat, offsetkib: nat, maxReply: nat)
    ensures var r := Serve(file, lenkib, offsetkib, maxReply);
            && (r.Some? <==> lenkib * 1024 <= maxReply && offsetkib * 1024 <= 0xFFFF_FFFF_FFFF_FFFF)
            && (r.Some? ==>
                  var off, n := offsetkib * 1024, lenkib * 1024;
                  && |r.value| == (if off >= |file| then 0 else if off + n >= |file| then |file| - off else n)
                  && forall k :: 0 <= k < |r.value| ==> r.value[k] == file[off + k])
  {
  }

  /** Consecutive pieces make one piece. */
  lemma PiecesJoin(file: seq<Byte>, off: nat, m: nat, n: nat)
    ensures Piece(file, off, m) + Piece(file, off + m, n) == Piece(file, off, m + n)
  {
  }

  lemma SliceOfSlice(s: seq<Byte>, a: nat, b: nat, c: nat, d: nat)
    requires a <= b <= |s| && c <= d <= b - a
    ensures s[a..b][c..d] == s[a + c..a + d]
  {
    var x, y := s[a..b][c..d], s[a + c..a + d];
    assert |x| == |y|;
    forall k | 0 <= k < |x| ensures x[k] == y[k] {
      assert x[k] == s[a..b][c + k];
    }
  }

  /** A piece of a piece. */
  lemma PieceOfPiece(file: seq<Byte>, off: nat, n: nat, from: nat, m: nat)
    requires from + m <= n
    ensures Piece(Piece(file, off, n), from, m) == Piece(file, off + from, m)
  {
    var p := Piece(file, off, n);
    if off < |file| {
      var end := if off + n >= |file| then |file| else off + n;
      assert p == file[off..end];
      if from < |p| {
        var last := if from + m >= |p| then |p| else from + m;
        SliceOfSlice(file, off, end, from, last);
      }
    }
  }

  /** fs123_read's answer: one or two pieces, or an error. */
  datatype Answer = Iov1(first: seq<Byte>) | Iov2(first: seq<Byte>, second: seq<Byte>) | Error

  function Whole(a: Answer): seq<Byte> {
    match a
    case Iov1(first) => first
    case Iov2(first, second) => first + second
    case Error => []
  }

  /** Neither of the two requests that a read can lead to is refused. */
  predicate Servable(chunk: nat, off: nat, maxReply: nat) {
    chunk <= maxReply / 1024 && off / KIB + chunk <= 0xFFFF_FFFF_FFFF_FFFF / 1024
  }

  /** fs123_read, with chunks of `chunk` KiB. The file may be another version by the
      time the second chunk is asked for; if it is not, the answer is exactly the bytes
      asked for, as far as the file goes. */
  method Read(chunk: nat, size: nat, off: nat, file: seq<Byte>, later: seq<Byte>, maxReply: nat) returns (a: Answer)
    requires chunk > 0
    ensures size > chunk * KIB ==> a == Error
    ensures size <= chunk * KIB && Servable(chunk, off, maxReply) ==> !a.Error?
    ensures !a.Error? && file == later ==> Whole(a) == Piece(file, off, size)
    ensures a.Iov1? ==> a.first == Piece(file, off, size)
    ensures a.Iov2? ==>
              && |a.first| == chunk * KIB - off % (chunk * KIB) < size
              && a.first == Piece(file, off, |a.first|) && a.second == Piece(later, off + |a.first|, size - |a.first|)
  {
    hide Piece, Serve, Servable;
    var chunkbytes := chunk * KIB;
    if size > chunkbytes {
      return Error;
    }
    var chunknum := off / chunkbytes;
    var off0 := off % chunkbytes;
    var len0 := if size < chunkbytes - off0 then size else chunkbytes - off0;
    ServesChunk(file, chunk, off, 0, maxReply);
    var reply0 := Serve(file, chunk, (chunknum + 0) * chunk, maxReply);
    if reply0.None? {
      return Error;
    }
    var content := reply0.value;
    PieceOfPiece(file, off - off0, chunkbytes, off0, len0);
    if off0 > |content| {
      PastTheEnd(content, file, off, off0, len0, size);
      return Iov1([]);
    }
    var n := if len0 < |content| - off0 then len0 else |content| - off0;
    var first := content[off0..off0 + n];
    SliceIsPiece(content, off0, len0);
    ShortPiece(file, off, len0, size);
    if |content| < chunkbytes || n == size {
      return Iov1(first);
    }
    var second := ReadNext(chunk, chunknum, off, size - len0, later, maxReply);
    if !second.Some? {
      return Error;
    }
    PiecesJoin(file, off, len0, size - len0);
    return Iov2(first, second.value);
  }

  /** The bytes of the next chunk that a read still wants. */
  method ReadNext(chunk: nat, chunknum: nat, off: nat, nleft: nat, later: seq<Byte>, maxReply: nat) returns (r: Option<seq<Byte>>)
    requires chunk > 0 && chunknum == off / (chunk * KIB) && nleft <= chunk * KIB
    ensures off % (chunk * KIB) <= off
    ensures Servable(chunk, off, maxReply) ==> r.Some?
    ensures r.Some? ==> r.value == Piece(later, off - off % (chunk * KIB) + chunk * KIB, nleft)
  {
    hide Piece, Serve, Servable;
    var chunkbytes := chunk * KIB;
    ServesChunk(later, chunk, off, 1, maxReply);
    var reply := Serve(later, chunk, (chunknum + 1) * chunk, maxReply);
    if !reply.Some? {
      return None;
    }
    var content := reply.value;
    var n := if nleft < |content| then nleft else |content|;
    PieceOfPiece(later, off - off % chunkbytes + chunkbytes, chunkbytes, 0, nleft);
    SliceIsPiece(content, 0, nleft);
    assert content[0..0 + n] == content[..n];
    return Some(content[..n]);
  }

  lemma SliceIsPiece(content: seq<Byte>, off: nat, n: nat)
    requires off <= |content|
    ensures content[off..off + if n < |content| - off then n else |content| - off] == Piece(content, off, n)
  {
  }

  lemma PastTheEnd(content: seq<Byte>, file: seq<Byte>, off: nat, off0: nat, len0: nat, size: nat)
    requires off0 > |content| && Piece(content, off0, len0) == Piece(file, off, len0) && len0 <= size && (len0 == 0 ==> size == 0)
    ensures Piece(file, off, size) == []
  {
  }

  /** A piece that is short, or as long as was asked for, is all there is. */
  lemma ShortPiece(file: seq<Byte>, off: nat, m: nat, n: nat)
    requires m <= n
    ensures |Piece(file, off, m)| <= m
    ensures |Piece(file, off, m)| < m || |Piece(file, off, m)| == n ==> Piece(file, off, m) == Piece(file, off, n)
  {
  }

  /** The chunk that `off` is in, or the one after it, starts where the read thinks. */
  lemma ServesChunk(file: seq<Byte>, chunk: nat, off: nat, k: nat, maxReply: nat)
    requires chunk > 0 && k <= 1
    ensures off % (chunk * KIB) <= off && off % (chunk * KIB) < chunk * KIB
    ensures var reply := Serve(file, chunk, (off / (chunk * KIB) + k) * chunk, maxReply);
            && (Servable(chunk, off, maxReply) ==> reply.Some?)
            && (reply.Some? ==> reply.value == Piece(file, off - off % (chunk * KIB) + k * (chunk * KIB), chunk * KIB))
  {
    hide Piece;
    var num := off / (chunk * KIB);
    ChunkStart(chunk, num, off);
    assert (num + k) * chunk == num * chunk + k * chunk;
  }

  lemma ChunkStart(chunk: nat, chunknum: nat, off: nat)
    requires chunk > 0 && chunknum == off / (chunk * KIB)
    ensures chunknum * chunk * KIB + off % (chunk * KIB) == off && chunknum * chunk <= off / KIB
  {
    assert chunknum * chunk * KIB == (chunk * KIB) * chunknum;
  }
}
