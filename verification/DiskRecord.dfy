/** The bytes of one disk cache file, and what reading any part of them yields. */
module DiskRecord {
  import opened Wrappers

  /** The raw bytes of the fixed-size part of a reply123 start with its magic number
      and end with the 32 characters of the content's checksum. */
  const POD: nat := 92
  const SUM: nat := 32
  const HEAD: nat := POD + 8
  const MAGIC: nat := 223606797

  /** A reply as the cache stores it: its fixed-size part, byte for byte, and its content. */
  datatype Reply = Reply(pod: seq<Byte>, content: seq<Byte>)

  datatype Record = Record(reply: Reply, url: seq<Byte>)

  /** Outcome of reading a file: a reply, an invalid reply (a miss), or a throw. */
  datatype Outcome = Hit(reply: Reply) | Miss | Throw

  /** Little-endian bytes of n in `width` bytes, truncated as a C integer is. */
  function Bytes(n: nat, width: nat): (s: seq<Byte>)
    ensures |s| == width
  {
    if width == 0 then [] else [n % 256] + Bytes(n / 256, width - 1)
  }

  function Number(s: seq<Byte>): nat {
    if s == [] then 0 else s[0] + 256 * Number(s[1..])
  }

  /** The least significant byte is first. */
  lemma LittleEndian()
    ensures Bytes(0x1_0302, 4) == [2, 3, 1, 0]
  {
  }

  function Pow256(k: nat): (p: nat)
    ensures p > 0
  {
    if k == 0 then 1 else 256 * Pow256(k - 1)
  }

  lemma {:induction false} NumberOfBytes(n: nat, width: nat)
    requires n < Pow256(width)
    ensures Number(Bytes(n, width)) == n
  {
    if width > 0 {
      NumberOfBytes(n / 256, width - 1);
      var rest := Bytes(n / 256, width - 1);
      assert ([n % 256] + rest)[1..] == rest;
    }
  }

  // ---------------------------------------------------------------- writing

  /** What every reply123 is: its fixed-size part has its size and magic number, and the
      content's length fits its field. */
  predicate Formed(r: Record) {
    && |r.reply.pod| == POD && Number(r.reply.pod[..4]) == MAGIC
    && |r.reply.content| < 0x1_0000_0000_0000_0000
  }

  /** What serialize accepts: the checksum matches the content. */
  ghost predicate Storable(r: Record, sum: seq<Byte> -> seq<Byte>) {
    Formed(r) && r.reply.pod[POD - SUM..] == sum(r.reply.content)
  }

  function Encode(r: Record): seq<Byte>
    requires |r.reply.pod| == POD
  {
    r.reply.pod + Bytes(|r.reply.content|, 8) + r.reply.content
      + (r.url + Bytes(|r.url|, 4) + r.reply.pod[..4])
  }

  // ---------------------------------------------------------------- reading

  /** The checks made once the header is read, `size` being the file's size seen
      before that: None to go on and read the content. */
  function CheckHead(size: nat, head: seq<Byte>): (r: Outcome)
    requires |head| <= HEAD
  {
    if |head| < HEAD then Throw
    else if Number(head[..4]) != MAGIC then Miss
    else if size < HEAD + Number(head[POD..]) + 8 then Throw
    else Hit(Reply(head[..POD], []))
  }

  /** The checks made once the content is read. */
  function CheckBody(head: seq<Byte>, body: seq<Byte>, sum: seq<Byte> -> seq<Byte>): Outcome
    requires |head| == HEAD
  {
    if |body| != Number(head[POD..]) || sum(body) != head[POD - SUM..POD] then Throw
    else Hit(Reply(head[..POD], body))
  }

  /** The first `n` bytes of a file from offset `from`, or what there is of them. */
  function ReadAt(data: seq<Byte>, from: nat, n: nat): (s: seq<Byte>)
    ensures |s| <= n
  {
    if from >= |data| then []
    else if from + n <= |data| then data[from..from + n]
    else data[from..]
  }

  /** deserialize_no_unlink on a file whose size, header and content are read at three
      moments, while it may still be growing. */
  function Deserialize(atStat: seq<Byte>, atHead: seq<Byte>, atBody: seq<Byte>, sum: seq<Byte> -> seq<Byte>): Outcome {
    var head := ReadAt(atHead, 0, HEAD);
    var checked := CheckHead(|atStat|, head);
    if !checked.Hit? then checked
    else CheckBody(head, ReadAt(atBody, HEAD, Number(head[POD..])), sum)
  }

  // ---------------------------------------------------------------- prefixes

  /** What the header and content of a record look like in its bytes. */
  lemma Layout(r: Record)
    requires |r.reply.pod| == POD && |r.reply.content| < 0x1_0000_0000_0000_0000
    ensures var e, n := Encode(r), |r.reply.content|;
            && |e| == HEAD + n + |r.url| + 8
            && e[..POD] == r.reply.pod && Number(e[POD..HEAD]) == n
            && e[HEAD..HEAD + n] == r.reply.content
  {
    NumberOfBytes(|r.reply.content|, 8);
    assert Pow256(4) == 0x1_0000_0000;
    assert Pow256(8) == 0x1_0000_0000_0000_0000;
    var e := Encode(r);
    assert e[POD..HEAD] == Bytes(|r.reply.content|, 8);
  }

  /** However little of a record has reached the file, and however it grows between
      the reads, reading it throws or gives exactly that record's reply; it gives the
      reply exactly when the file had everything but the url when its size was taken. */
  lemma AnyPrefix(r: Record, sum: seq<Byte> -> seq<Byte>, a: nat, b: nat, c: nat)
    requires Storable(r, sum) && a <= b <= c <= |Encode(r)|
    ensures Deserialize(Encode(r)[..a], Encode(r)[..b], Encode(r)[..c], sum)
            == if a >= HEAD + |r.reply.content| + 8 then Hit(r.reply) else Throw
  {
    Layout(r);
    var e, n := Encode(r), |r.reply.content|;
    hide Encode, Number, Bytes;
    var head := ReadAt(e[..b], 0, HEAD);
    if b >= HEAD {
      assert head == e[..HEAD];
      assert head[..4] == r.reply.pod[..4] && head[POD..] == e[POD..HEAD] && head[..POD] == r.reply.pod;
      assert head[POD - SUM..POD] == r.reply.pod[POD - SUM..];
      if a >= HEAD + n + 8 {
        assert ReadAt(e[..c], HEAD, n) == e[HEAD..HEAD + n];
      }
    }
  }
}
