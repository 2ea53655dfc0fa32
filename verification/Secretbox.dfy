/** The fs123-secretbox encoding, sealed and opened in place inside a bounding box. */
module Secretbox {
  import opened Wrappers

  type Bytes = seq<Byte>

  const NONCE: nat := 24
  const MAC: nat := 16
  const ZERO: nat := 32
  const BOXZERO: nat := 16
  const KEY: nat := 32
  const MIN_DERIVE: nat := 16
  /** Where the id's length and the id are in the header. */
  const IDLEN: nat := 28
  const ID: nat := 29

  const TWO32: nat := 0x1_0000_0000

  /** crypto_secretbox and its inverse, of a key, a nonce and a text, without the zero
      bytes that the library's calls put in front of texts. */
  datatype Crypto = Crypto(seal: (Bytes, Bytes, Bytes) -> Bytes, open: (Bytes, Bytes, Bytes) -> Option<Bytes>)

  function Seal(c: Crypto, key: Bytes, nonce: Bytes, text: Bytes): Bytes {
    c.seal(key, nonce, text)
  }

  function Open(c: Crypto, key: Bytes, nonce: Bytes, sealed: Bytes): Option<Bytes> {
    c.open(key, nonce, sealed)
  }

  /** What the secret manager knows of an id. */
  function KeyOf(keys: Bytes -> Option<Bytes>, sid: Bytes): Option<Bytes> {
    keys(sid)
  }

  ghost predicate Inverse(c: Crypto) {
    && (forall k, n, m :: |Seal(c, k, n, m)| == MAC + |m|)
    && (forall k, n, m :: Open(c, k, n, Seal(c, k, n, m)) == Some(m))
    && (forall k, n, b :: Open(c, k, n, b).Some? ==> |b| == MAC + |Open(c, k, n, b).value|)
  }

  // ------------------------------------------------- the format

  /** A 32-bit number in network byte order. */
  function BigEndian(n: nat): (s: Bytes)
    requires n < TWO32
    ensures |s| == 4
  {
    [n / 0x100_0000, n / 0x1_0000 % 0x100, n / 0x100 % 0x100, n % 0x100]
  }

  function FromBigEndian(s: Bytes): nat
    requires |s| == 4
  {
    var a: nat, b: nat, c: nat, d: nat := s[0], s[1], s[2], s[3];
    a * 0x100_0000 + b * 0x1_0000 + c * 0x100 + d
  }

  lemma BigEndianRoundTrip(n: nat)
    requires n < TWO32
    ensures FromBigEndian(BigEndian(n)) == n
  {
    var a, b := n / 0x100, n / 0x1_0000;
    assert a / 0x100 == b && b / 0x100 == n / 0x100_0000;
    assert n == a * 0x100 + n % 0x100 && a == b * 0x100 + a % 0x100 && b == (b / 0x100) * 0x100 + b % 0x100;
  }

  /** The most significant byte is first. */
  lemma NetworkOrder(a: Byte, b: Byte, c: Byte, d: Byte)
    ensures BigEndian(a as nat * 0x100_0000 + b as nat * 0x1_0000 + c as nat * 0x100 + d as nat) == [a, b, c, d]
  {
    var e: nat, f: nat := a as nat * 0x100 + b as nat, c as nat * 0x100 + d as nat;
    var n := e * 0x1_0000 + f;
    assert n / 0x1_0000 == e && n % 0x1_0000 == f;
    assert n / 0x100_0000 == e / 0x100;
    assert n / 0x100 == e * 0x100 + c as nat;
  }

  /** The header's record size is a 32-bit field. */
  function Header(nonce: Bytes, recordsz: nat, sid: Bytes): Bytes
    requires |sid| < 256
  {
    nonce + BigEndian(recordsz % TWO32) + [|sid|] + sid
  }

  function Zeros(n: nat): (s: Bytes)
    ensures |s| == n && forall k :: 0 <= k < n ==> s[k] == 0
  {
    seq(n, _ => 0)
  }

  function Padding(n: nat, align: nat): (p: nat)
    requires align > 0
    ensures 1 <= p <= align
  {
    align - n % align
  }

  function Padded(plain: Bytes, align: nat): Bytes
    requires align > 0
  {
    plain + [2] + Zeros(Padding(|plain|, align) - 1)
  }

  /** Padding makes the text's length the next multiple of the alignment, with a 2 after
      the text and then zeros. */
  lemma PaddedLength(plain: Bytes, align: nat)
    requires align > 0
    ensures |Padded(plain, align)| == (|plain| / align + 1) * align
    ensures var p := Padded(plain, align);
            && p[..|plain|] == plain && p[|plain|] == 2 && forall k :: |plain| < k < |p| ==> p[k] == 0
  {
    assert |plain| == align * (|plain| / align) + |plain| % align;
  }

  function Unpad(p: Bytes): Option<Bytes> {
    if p == [] then None
    else if p[|p| - 1] == 0 then Unpad(p[..|p| - 1])
    else if p[|p| - 1] == 2 then Some(p[..|p| - 1])
    else None
  }

  lemma {:induction false} UnpadZeros(plain: Bytes, n: nat)
    ensures Unpad(plain + [2] + Zeros(n)) == Some(plain)
  {
    var p := plain + [2] + Zeros(n);
    if n == 0 {
      assert p == plain + [2];
    } else {
      assert p[..|p| - 1] == plain + [2] + Zeros(n - 1);
      UnpadZeros(plain, n - 1);
    }
  }

  function Message(c: Crypto, nonce: Bytes, sid: Bytes, secret: Bytes, plain: Bytes, align: nat): Bytes
    requires |sid| < 256 && |secret| >= KEY && align > 0
  {
    var p := Padded(plain, align);
    Header(nonce, MAC + |p|, sid) + Seal(c, secret[..KEY], nonce, p)
  }

  /** The header's checks. A header without room for an id is refused either way. */
  predicate HeaderFits(msg: Bytes) {
    && |msg| > IDLEN && msg[IDLEN] != 0 && |msg| >= ID + msg[IDLEN]
    && FromBigEndian(msg[NONCE..IDLEN]) == |msg| - ID - msg[IDLEN]
  }

  /** The padded text, if the header is right, the key is known, and the record is
      authentic. */
  function OpenRecord(c: Crypto, keys: Bytes -> Option<Bytes>, msg: Bytes): Option<Bytes> {
    if !HeaderFits(msg) then None
    else
      var key := KeyOf(keys, msg[ID..ID + msg[IDLEN]]);
      if key.None? || |key.value| < KEY then None
      else Open(c, key.value[..KEY], msg[..NONCE], msg[ID + msg[IDLEN]..])
  }

  /** The text without its padding. Where there is no padding at all, because there is
      no text, the byte after the message is taken for it. */
  function UnpadAt(p: Bytes, next: Byte): Option<Bytes> {
    if p == [] then if next == 2 then Some([]) else None
    else Unpad(p)
  }

  function Plaintext(c: Crypto, keys: Bytes -> Option<Bytes>, msg: Bytes, next: Byte): Option<Bytes> {
    var p := OpenRecord(c, keys, msg);
    if p.None? then None else UnpadAt(p.value, next)
  }

  /** A record is opened only if the id has a length, the header and the record fill the
      message, and the id's key is known and long enough; and then by that key. */
  lemma OpensExactly(c: Crypto, keys: Bytes -> Option<Bytes>, msg: Bytes)
    ensures var n: nat := if |msg| > 28 then msg[28] as nat else 0;
            var fits := 0 < n && 29 + n <= |msg| && FromBigEndian(msg[24..28]) == |msg| - 29 - n;
            var key := if fits then KeyOf(keys, msg[29..29 + n]) else None;
            OpenRecord(c, keys, msg)
            == if key.Some? && 32 <= |key.value| then Open(c, key.value[..32], msg[..24], msg[29 + n..]) else None
  {
    hide FromBigEndian, KeyOf, Open;
  }

  lemma HeaderParts(nonce: Bytes, recordsz: nat, sid: Bytes, rest: Bytes)
    requires |nonce| == NONCE && |sid| < 256
    ensures var msg := Header(nonce, recordsz, sid) + rest;
            && |msg| == ID + |sid| + |rest| && msg[..NONCE] == nonce && msg[IDLEN] == |sid|
            && msg[ID..ID + |sid|] == sid && msg[ID + |sid|..] == rest
            && FromBigEndian(msg[NONCE..IDLEN]) == recordsz % TWO32
  {
    var h := Header(nonce, recordsz, sid);
    var msg := h + rest;
    BigEndianRoundTrip(recordsz % TWO32);
    hide BigEndian, FromBigEndian;
    assert msg[NONCE..IDLEN] == BigEndian(recordsz % TWO32);
    assert msg[ID..ID + |sid|] == sid;
  }

  /** Decoding an encoded text gives the text back, whatever bytes it ends with, for
      every legal id and every alignment, exactly when the record's size fits its
      32-bit field. */
  lemma RoundTrip(c: Crypto, keys: Bytes -> Option<Bytes>, nonce: Bytes, sid: Bytes, secret: Bytes, plain: Bytes, align: nat, next: Byte)
    requires Inverse(c) && |nonce| == NONCE && 0 < |sid| < 256 && |secret| >= KEY && KeyOf(keys, sid) == Some(secret) && align > 0
    ensures var msg := Message(c, nonce, sid, secret, plain, align);
            Plaintext(c, keys, msg, next) == if MAC + |Padded(plain, align)| < TWO32 then Some(plain) else None
  {
    hide BigEndian, FromBigEndian, Header;
    var p := Padded(plain, align);
    HeaderParts(nonce, MAC + |p|, sid, Seal(c, secret[..KEY], nonce, p));
    UnpadZeros(plain, Padding(|plain|, align) - 1);
  }

  // ------------------------------------------------- in place

  /** s with t written over it at `at`. */
  function Splice(s: Bytes, at: nat, t: Bytes): (r: Bytes)
    requires at + |t| <= |s|
    ensures |r| == |s|
  {
    s[..at] + t + s[at + |t|..]
  }

  lemma SpliceAt(s: Bytes, at: nat, t: Bytes, k: nat)
    requires at + |t| <= |s| && k < |s|
    ensures Splice(s, at, t)[k] == if at <= k < at + |t| then t[k - at] else s[k]
  {
  }

  method Store(box: array<Byte>, at: nat, t: Bytes)
    requires at + |t| <= box.Length
    modifies box
    ensures box[..] == Splice(old(box[..]), at, t)
  {
    for k := 0 to |t|
      invariant forall j :: 0 <= j < box.Length ==> box[j] == if at <= j < at + k then t[j - at] else old(box[j])
    {
      box[at + k] := t[k];
    }
  }

  /** encode, of the text at box[off..off + len]; None is a throw. */
  method Encode(c: Crypto, box: array<Byte>, off: nat, len: nat, sid: Bytes, secret: Bytes, align: nat, derived: bool, nonce: Bytes)
    returns (r: Option<(nat, nat)>)
    requires Inverse(c) && off + len <= box.Length && align > 0 && |nonce| == NONCE
    modifies box
    ensures r.None? <==> || |secret| < KEY || |sid| == 0 || |sid| > 255
                         || off < ID + |sid| + MAC || box.Length - off - len < Padding(len, align)
                         || (derived && |secret| < KEY + MIN_DERIVE)
    ensures r.None? ==> box[off..off + len] == old(box[off..off + len])
    ensures r.Some? ==>
              var msg := Message(c, nonce, sid, secret, old(box[off..off + len]), align);
              && r.value == (off - ID - |sid| - MAC, |msg|) && r.value.0 + r.value.1 == off + len + Padding(len, align) <= box.Length
              && box[..] == Splice(old(box[..]), r.value.0, msg)
  {
    hide Padding, Padded, PaddedBox, Message, Splice, Header, Seal, Inverse;
    if |secret| < KEY {
      return None;
    }
    ghost var box0 := box[..];
    var padding := Padding(len, align);
    var recordsz := MAC + len + padding;
    var idlen := |sid| % 256;
    if idlen == 0 {
      return None;
    }
    if idlen != |sid| {
      return None;
    }
    var wiresize := ID + idlen;
    if off < wiresize + MAC {
      return None;
    }
    if box.Length - off - len < padding {
      return None;
    }
    PadBox(box, off, len, align);
    if derived {
      var keybytes := |secret| - KEY;
      if keybytes < MIN_DERIVE {
        return None;
      }
    }
    SealBox(c, box, off, len, sid, secret, align, nonce, box0);
    MessageLength(c, nonce, sid, secret, box0[off..off + len], align);
    return Some((off - MAC - wiresize, wiresize + recordsz));
  }

  /** Zeroes the bytes before the text, which the library wants there, and pads it. */
  method PadBox(box: array<Byte>, off: nat, len: nat, align: nat)
    requires align > 0 && ZERO <= off && off + len + Padding(len, align) <= box.Length
    modifies box
    ensures box[..] == PaddedBox(old(box[..]), off, len, Padding(len, align))
    ensures box[off..off + len] == old(box[off..off + len])
  {
    hide Splice, Padding;
    ghost var was := box[..];
    PadInPlace(was, off, len, align);
    Store(box, off - ZERO, Zeros(ZERO));
    box[off + len] := 2;
    assert box[..] == Splice(was, off - ZERO, Zeros(ZERO))[off + len := 2];
    Store(box, off + len + 1, Zeros(Padding(len, align) - 1));
    assert box[off..off + len] == box[..][off..off + len];
  }

  /** Seals the padded text in place, and puts the header in front of it. */
  method SealBox(c: Crypto, box: array<Byte>, off: nat, len: nat, sid: Bytes, secret: Bytes, align: nat, nonce: Bytes, ghost was: Bytes)
    requires Inverse(c) && |nonce| == NONCE && |secret| >= KEY && 0 < |sid| < 256 && align > 0
    requires ID + |sid| + MAC <= off && off + len + Padding(len, align) <= box.Length == |was|
    requires box[..] == PaddedBox(was, off, len, Padding(len, align))
    modifies box
    ensures var msg := Message(c, nonce, sid, secret, was[off..off + len], align);
            && off - MAC - ID - |sid| + |msg| <= |was|
            && box[..] == Splice(was, off - MAC - ID - |sid|, msg)
  {
    hide Splice, Padding, Padded, PaddedBox, Header, Seal, Message;
    PadInPlace(was, off, len, align);
    MessageIs(c, nonce, sid, secret, was[off..off + len], align);
    MessageLength(c, nonce, sid, secret, was[off..off + len], align);
    HeaderLength(nonce, MAC + len + Padding(len, align), sid);
    var padded := box[off..off + len + Padding(len, align)];
    assert padded == box[..][off..off + len + Padding(len, align)];
    var sealed := Seal(c, secret[..KEY], nonce, padded);
    var header := Header(nonce, MAC + len + Padding(len, align), sid);
    AssembleInPlace(was, off, len, Padding(len, align), header, sealed);
    Store(box, off - ZERO, Zeros(BOXZERO) + sealed);
    Store(box, off - MAC - ID - |sid|, header);
  }

  lemma MessageLength(c: Crypto, nonce: Bytes, sid: Bytes, secret: Bytes, plain: Bytes, align: nat)
    requires Inverse(c) && |sid| < 256 && |secret| >= KEY && |nonce| == NONCE && align > 0
    ensures |Message(c, nonce, sid, secret, plain, align)| == ID + |sid| + MAC + |plain| + Padding(|plain|, align)
  {
    hide Padding;
  }

  lemma MessageIs(c: Crypto, nonce: Bytes, sid: Bytes, secret: Bytes, plain: Bytes, align: nat)
    requires |sid| < 256 && |secret| >= KEY && align > 0
    ensures Message(c, nonce, sid, secret, plain, align)
            == Header(nonce, MAC + |plain| + Padding(|plain|, align), sid) + Seal(c, secret[..KEY], nonce, Padded(plain, align))
  {
    hide Header, Seal, Padding;
  }

  lemma HeaderLength(nonce: Bytes, recordsz: nat, sid: Bytes)
    requires |sid| < 256 && |nonce| == NONCE
    ensures |Header(nonce, recordsz, sid)| == ID + |sid|
  {
  }

  /** What zeroing before the text and padding after it make of the box. */
  ghost function PaddedBox(was: Bytes, off: nat, len: nat, padding: nat): (s: Bytes)
    requires ZERO <= off && off + len + padding <= |was| && padding > 0
    ensures |s| == |was|
  {
    Splice(Splice(was, off - ZERO, Zeros(ZERO))[off + len := 2], off + len + 1, Zeros(padding - 1))
  }

  lemma PadInPlace(was: Bytes, off: nat, len: nat, align: nat)
    requires align > 0 && ZERO <= off && off + len + Padding(len, align) <= |was|
    ensures var s := PaddedBox(was, off, len, Padding(len, align));
            && s[off..off + len] == was[off..off + len]
            && s[off..off + len + Padding(len, align)] == Padded(was[off..off + len], align)
  {
    hide Padding, PaddedBox;
    var n := Padding(len, align);
    var s := PaddedBox(was, off, len, n);
    var p := Padded(was[off..off + len], align);
    assert |p| == len + n;
    forall k | 0 <= k < len + n ensures s[off + k] == p[k] {
      PaddedBoxAt(was, off, len, n, off + k);
    }
    assert s[off..off + len + n] == p;
    var a, b := s[off..off + len], was[off..off + len];
    forall k | 0 <= k < len ensures a[k] == b[k] {
      PaddedBoxAt(was, off, len, n, off + k);
    }
  }

  lemma PaddedBoxAt(was: Bytes, off: nat, len: nat, padding: nat, k: nat)
    requires ZERO <= off && off + len + padding <= |was| && padding > 0 && k < |was|
    ensures var s := PaddedBox(was, off, len, padding);
            s[k] == if k < off - ZERO || off <= k < off + len || off + len + padding <= k then was[k]
                    else if k == off + len then 2
                    else 0
  {
    hide Splice;
    var s1 := Splice(was, off - ZERO, Zeros(ZERO));
    SpliceAt(was, off - ZERO, Zeros(ZERO), k);
    SpliceAt(s1[off + len := 2], off + len + 1, Zeros(padding - 1), k);
  }

  lemma AssembleInPlace(was: Bytes, off: nat, len: nat, padding: nat, header: Bytes, sealed: Bytes)
    requires |header| >= BOXZERO && |header| + MAC <= off && ZERO <= off && off + len + padding <= |was| && padding > 0
    requires |sealed| == MAC + len + padding
    ensures var start := off - MAC - |header|;
            var s := PaddedBox(was, off, len, padding);
            Splice(Splice(s, off - ZERO, Zeros(BOXZERO) + sealed), start, header) == Splice(was, start, header + sealed)
  {
    hide Splice, PaddedBox;
    var start := off - MAC - |header|;
    var s := PaddedBox(was, off, len, padding);
    var inner := Splice(s, off - ZERO, Zeros(BOXZERO) + sealed);
    var x, y := Splice(inner, start, header), Splice(was, start, header + sealed);
    forall k | 0 <= k < |was| ensures x[k] == y[k] {
      PaddedBoxAt(was, off, len, padding, k);
      SpliceAt(s, off - ZERO, Zeros(BOXZERO) + sealed, k);
      SpliceAt(inner, start, header, k);
      SpliceAt(was, start, header + sealed, k);
    }
  }

  /** What opening a record in place makes of the box: the text, after bytes that the
      library zeroes. */
  ghost function OpenedBox(was: Bytes, at: nat, p: Bytes): Bytes {
    if at + ZERO + |p| <= |was| then Splice(was, at, Zeros(ZERO) + p) else was
  }

  /** What decode makes of the box: only an authentic message is changed, but that even
      if its padding then turns out to be wrong. */
  ghost function DecodedBox(c: Crypto, keys: Bytes -> Option<Bytes>, was: Bytes, off: nat, len: nat): Bytes
    requires Inverse(c) && off + len <= |was|
  {
    var msg := was[off..off + len];
    var p := OpenRecord(c, keys, msg);
    if p.None? then was else OpenedBox(was, off + ID + msg[IDLEN] - BOXZERO, p.value)
  }

  lemma SpliceIsSame(s: Bytes, at: nat, t: Bytes)
    requires at + |t| <= |s|
    ensures Splice(s, at, t) == s <==> s[at..at + |t|] == t
  {
    if Splice(s, at, t) == s {
      assert Splice(s, at, t)[at..at + |t|] == t;
    } else {
      assert s == s[..at] + s[at..at + |t|] + s[at + |t|..];
    }
  }

  lemma InPlace(c: Crypto, keys: Bytes -> Option<Bytes>, was: Bytes, off: nat, len: nat)
    requires Inverse(c) && off + len <= |was| && OpenRecord(c, keys, was[off..off + len]).Some?
    ensures var msg, p := was[off..off + len], OpenRecord(c, keys, was[off..off + len]).value;
            && |msg| > IDLEN && |msg| == ID + msg[IDLEN] + MAC + |p| && msg[IDLEN] > 0
            && DecodedBox(c, keys, was, off, len) == Splice(was, off + ID + msg[IDLEN] - BOXZERO, Zeros(ZERO) + p)
  {
    hide OpenRecord, Splice;
    OpenedLength(c, keys, was[off..off + len]);
  }

  /** A decode, throwing or not, leaves the box as it was exactly when the record cannot
      be opened or already stands open: zeros from the id's last bytes on, and then the
      text. With an id of less than 16 bytes only the first can be. */
  lemma UnchangedExactly(c: Crypto, keys: Bytes -> Option<Bytes>, was: Bytes, off: nat, len: nat)
    requires Inverse(c) && off + len <= |was|
    ensures var msg := was[off..off + len];
            var p := OpenRecord(c, keys, msg);
            && (DecodedBox(c, keys, was, off, len) == was <==>
                  p.Some? ==> msg[ID + msg[IDLEN] - BOXZERO..] == Zeros(ZERO) + p.value)
            && (DecodedBox(c, keys, was, off, len) == was && p.Some? ==> msg[IDLEN] >= BOXZERO)
  {
    hide OpenRecord, Splice, DecodedBox;
    var msg := was[off..off + len];
    var p := OpenRecord(c, keys, msg);
    if p.None? {
      NotOpened(c, keys, was, off, len);
    } else {
      InPlace(c, keys, was, off, len);
      var at, t := ID + msg[IDLEN] - BOXZERO, Zeros(ZERO) + p.value;
      SpliceIsSame(was, off + at, t);
      assert msg[at..] == was[off + at..off + at + |t|];
      if msg[IDLEN] < BOXZERO {
        assert msg[at..][IDLEN - at] == msg[IDLEN];
        assert t[IDLEN - at] == Zeros(ZERO)[IDLEN - at] == 0;
      }
    }
  }

  lemma NotOpened(c: Crypto, keys: Bytes -> Option<Bytes>, was: Bytes, off: nat, len: nat)
    requires Inverse(c) && off + len <= |was| && OpenRecord(c, keys, was[off..off + len]).None?
    ensures DecodedBox(c, keys, was, off, len) == was
  {
    hide OpenRecord;
  }

  /** A message with any padded text p, sealed as encode does. */
  function Sealed(c: Crypto, nonce: Bytes, sid: Bytes, secret: Bytes, p: Bytes): Bytes
    requires |sid| < 256 && |secret| >= KEY
  {
    Header(nonce, MAC + |p|, sid) + Seal(c, secret[..KEY], nonce, p)
  }

  lemma {:induction false} OnlyZeros(n: nat)
    ensures Unpad(Zeros(n)).None?
  {
    if n > 0 {
      assert Zeros(n)[..n - 1] == Zeros(n - 1);
      OnlyZeros(n - 1);
    }
  }

  /** The header promises that a throwing decode modifies nothing, and it does not hold:
      zeros sealed under a known key and a short id are authentic but not padded, so
      decode throws, and the message it was given is gone. */
  lemma BadPaddingChangesTheBox(c: Crypto, keys: Bytes -> Option<Bytes>, nonce: Bytes, sid: Bytes, secret: Bytes, n: nat, before: Bytes, after: Bytes, next: Byte)
    requires Inverse(c) && |nonce| == NONCE && 0 < |sid| < BOXZERO && |secret| >= KEY && KeyOf(keys, sid) == Some(secret)
    requires 0 < n && MAC + n < TWO32
    ensures var msg := Sealed(c, nonce, sid, secret, Zeros(n));
            var was := before + msg + after;
            && HeaderFits(msg) && OpenRecord(c, keys, msg) == Some(Zeros(n)) && Plaintext(c, keys, msg, next).None?
            && was[|before|..|before| + |msg|] == msg
            && DecodedBox(c, keys, was, |before|, |msg|) != was
  {
    hide BigEndian, FromBigEndian, Header, DecodedBox;
    var msg := Sealed(c, nonce, sid, secret, Zeros(n));
    var was := before + msg + after;
    HeaderParts(nonce, MAC + n, sid, Seal(c, secret[..KEY], nonce, Zeros(n)));
    OnlyZeros(n);
    assert was[|before|..|before| + |msg|] == msg;
    UnchangedExactly(c, keys, was, |before|, |msg|);
  }

  /** The byte after the message, inside the box or beyond it. */
  function NextByte(box: Bytes, end: nat, beyond: Byte): Byte {
    if end < |box| then box[end] else beyond
  }

  /** decode, of the message at box[off..off + len]; None is a throw. `beyond` is the
      byte after the box. */
  method Decode(c: Crypto, keys: Bytes -> Option<Bytes>, box: array<Byte>, off: nat, len: nat, beyond: Byte) returns (r: Option<(nat, nat)>)
    requires Inverse(c) && off + len <= box.Length
    modifies box
    ensures var msg, next := old(box[off..off + len]), NextByte(old(box[..]), off + len, beyond);
            && (r.None? <==> Plaintext(c, keys, msg, next).None?)
            && (r.Some? ==> off <= r.value.0 <= r.value.0 + r.value.1 <= off + len
                            && r.value.0 == off + ID + msg[IDLEN] + MAC
                            && box[r.value.0..r.value.0 + r.value.1] == Plaintext(c, keys, msg, next).value)
            && box[..] == DecodedBox(c, keys, old(box[..]), off, len)
  {
    hide OpenRecord, OpenedBox, UnpadAt, Inverse, FromBigEndian, Splice, Plaintext, DecodedBox, KeyOf, HeaderFits;
    ghost var was := box[..];
    var msg := box[off..off + len];
    assert was[off..off + len] == msg;
    PlaintextIs(c, keys, msg, NextByte(was, off + len, beyond));
    var text := ReadRecord(c, keys, msg);
    if !text.Some? {
      NotOpened(c, keys, was, off, len);
      return None;
    }
    OpenedLength(c, keys, msg);
    OpenedIs(c, keys, was, off, len);
    var at := off + ID + msg[IDLEN] - BOXZERO;
    var n := UnpadBox(box, at, text.value, beyond);
    if !n.Some? {
      return None;
    }
    return Some((at + ZERO, n.value));
  }

  lemma PlaintextIs(c: Crypto, keys: Bytes -> Option<Bytes>, msg: Bytes, next: Byte)
    ensures Plaintext(c, keys, msg, next)
            == if OpenRecord(c, keys, msg).None? then None else UnpadAt(OpenRecord(c, keys, msg).value, next)
  {
    hide OpenRecord, UnpadAt;
  }

  lemma OpenedIs(c: Crypto, keys: Bytes -> Option<Bytes>, was: Bytes, off: nat, len: nat)
    requires Inverse(c) && off + len <= |was| && OpenRecord(c, keys, was[off..off + len]).Some?
    ensures var msg := was[off..off + len];
            && |msg| > IDLEN && off + ID + msg[IDLEN] >= BOXZERO
            && DecodedBox(c, keys, was, off, len) == OpenedBox(was, off + ID + msg[IDLEN] - BOXZERO, OpenRecord(c, keys, msg).value)
  {
    hide OpenRecord, OpenedBox, Inverse;
    OpenedLength(c, keys, was[off..off + len]);
  }

  /** Puts the opened text where the library does, and takes its pad bytes off. */
  method UnpadBox(box: array<Byte>, at: nat, p: Bytes, beyond: Byte) returns (n: Option<nat>)
    requires at + ZERO + |p| <= box.Length
    modifies box
    ensures box[..] == OpenedBox(old(box[..]), at, p)
    ensures var next := NextByte(old(box[..]), at + ZERO + |p|, beyond);
            && (n.None? <==> UnpadAt(p, next).None?)
            && (n.Some? ==> n.value <= |p| && UnpadAt(p, next) == Some(box[at + ZERO..at + ZERO + n.value]))
  {
    hide Splice, UnpadAt;
    TailInPlace(box[..], at, p);
    Store(box, at, Zeros(ZERO) + p);
    assert box[at + ZERO..at + ZERO + |p|] == box[..][at + ZERO..at + ZERO + |p|] == p;
    n := Scan(box, at + ZERO, |p|, beyond);
  }

  lemma OpenedLength(c: Crypto, keys: Bytes -> Option<Bytes>, msg: Bytes)
    requires Inverse(c) && OpenRecord(c, keys, msg).Some?
    ensures |msg| > IDLEN && |msg| == ID + msg[IDLEN] + MAC + |OpenRecord(c, keys, msg).value| && msg[IDLEN] > 0
  {
    hide FromBigEndian;
  }

  /** The checks and the library call that opens the record. */
  method ReadRecord(c: Crypto, keys: Bytes -> Option<Bytes>, msg: Bytes) returns (text: Option<Bytes>)
    ensures text == OpenRecord(c, keys, msg)
  {
    if |msg| <= IDLEN || msg[IDLEN] == 0 || |msg| < ID + msg[IDLEN] {
      return None;
    }
    var wiresize := ID + msg[IDLEN];
    var recordsz := FromBigEndian(msg[NONCE..IDLEN]);
    if recordsz != |msg| - wiresize {
      return None;
    }
    var key := KeyOf(keys, msg[ID..wiresize]);
    if !key.Some? {
      return None;
    }
    if |key.value| < KEY {
      return None;
    }
    return Open(c, key.value[..KEY], msg[..NONCE], msg[wiresize..]);
  }

  lemma TailInPlace(s: Bytes, at: nat, p: Bytes)
    requires at + ZERO + |p| <= |s|
    ensures Splice(s, at, Zeros(ZERO) + p)[at + ZERO..at + ZERO + |p|] == p
    ensures at + ZERO + |p| < |s| ==> Splice(s, at, Zeros(ZERO) + p)[at + ZERO + |p|] == s[at + ZERO + |p|]
  {
  }

  /** Walks back over the pad bytes; None if they are not as they should be. */
  method Scan(box: array<Byte>, plainstart: nat, len: nat, beyond: Byte) returns (n: Option<nat>)
    requires plainstart + len <= box.Length
    ensures var p, next := box[plainstart..plainstart + len], NextByte(box[..], plainstart + len, beyond);
            && (n.None? <==> UnpadAt(p, next).None?)
            && (n.Some? ==> n.value <= len && UnpadAt(p, next) == Some(box[plainstart..plainstart + n.value]))
  {
    if len == 0 {
      var last := if plainstart < box.Length then box[plainstart] else beyond;
      return if last == 2 then Some(0) else None;
    }
    var pend := plainstart + len;
    while pend > plainstart && box[pend - 1] == 0
      invariant plainstart <= pend <= plainstart + len
      invariant Unpad(box[plainstart..pend]) == Unpad(box[plainstart..plainstart + len])
    {
      assert box[plainstart..pend][..pend - plainstart - 1] == box[plainstart..pend - 1];
      pend := pend - 1;
    }
    if pend == plainstart || box[pend - 1] != 2 {
      return None;
    }
    assert box[plainstart..pend][..pend - plainstart - 1] == box[plainstart..pend - 1];
    return Some(pend - 1 - plainstart);
  }

  /** Encoding and decoding in the same bounding box: what encode leaves in it is a
      message whose decoding succeeds, finds the text where it was, and leaves it there. */
  lemma EncodeThenDecode(c: Crypto, keys: Bytes -> Option<Bytes>, was: Bytes, off: nat, len: nat, sid: Bytes, secret: Bytes, align: nat, nonce: Bytes, next: Byte)
    requires Inverse(c) && off + len <= |was| && align > 0 && |nonce| == NONCE
    requires 0 < |sid| < 256 && |secret| >= KEY && KeyOf(keys, sid) == Some(secret)
    requires ID + |sid| + MAC <= off && Padding(len, align) <= |was| - off - len
    requires MAC + len + Padding(len, align) < TWO32
    ensures var text, start := was[off..off + len], off - ID - |sid| - MAC;
            var msg := Message(c, nonce, sid, secret, text, align);
            && start + |msg| == off + len + Padding(len, align) <= |was|
            && var sent := Splice(was, start, msg);
            && sent[start..start + |msg|] == msg && Plaintext(c, keys, msg, next) == Some(text)
            && |msg| > IDLEN && start + ID + msg[IDLEN] + MAC == off
            && |DecodedBox(c, keys, sent, start, |msg|)| == |was|
            && DecodedBox(c, keys, sent, start, |msg|)[off..off + len] == text
  {
    hide Message, OpenRecord, Padding, DecodedBox, Padded, Splice, KeyOf;
    var text, start := was[off..off + len], off - ID - |sid| - MAC;
    var msg := Message(c, nonce, sid, secret, text, align);
    MessageLength(c, nonce, sid, secret, text, align);
    MessageParts(c, nonce, sid, secret, text, align);
    SpliceThere(was, start, msg);
    RoundTrip(c, keys, nonce, sid, secret, text, align, next);
    var sent := Splice(was, start, msg);
    OpensPadded(c, keys, nonce, sid, secret, text, align);
    InPlace(c, keys, sent, start, |msg|);
    var p := Padded(text, align);
    var box := DecodedBox(c, keys, sent, start, |msg|);
    SpliceThere(sent, off - ZERO, Zeros(ZERO) + p);
    PaddedFront(text, align);
    forall k | 0 <= k < len ensures box[off..off + len][k] == text[k] {
      assert box[off + k] == box[off - ZERO..off + |p|][ZERO + k] == (Zeros(ZERO) + p)[ZERO + k] == p[k];
    }
  }

  lemma SpliceThere(s: Bytes, at: nat, t: Bytes)
    requires at + |t| <= |s|
    ensures Splice(s, at, t)[at..at + |t|] == t
  {
  }

  lemma PaddedFront(plain: Bytes, align: nat)
    requires align > 0
    ensures |Padded(plain, align)| >= |plain| && Padded(plain, align)[..|plain|] == plain
    ensures forall k :: 0 <= k < |plain| ==> Padded(plain, align)[k] == plain[k]
  {
    hide Padding;
  }

  lemma OpensPadded(c: Crypto, keys: Bytes -> Option<Bytes>, nonce: Bytes, sid: Bytes, secret: Bytes, plain: Bytes, align: nat)
    requires Inverse(c) && |nonce| == NONCE && 0 < |sid| < 256 && |secret| >= KEY && KeyOf(keys, sid) == Some(secret) && align > 0
    requires MAC + |Padded(plain, align)| < TWO32
    ensures OpenRecord(c, keys, Message(c, nonce, sid, secret, plain, align)) == Some(Padded(plain, align))
  {
    hide BigEndian, FromBigEndian, Header, Padded;
    var p := Padded(plain, align);
    HeaderParts(nonce, MAC + |p|, sid, Seal(c, secret[..KEY], nonce, p));
  }

  lemma MessageParts(c: Crypto, nonce: Bytes, sid: Bytes, secret: Bytes, plain: Bytes, align: nat)
    requires Inverse(c) && |nonce| == NONCE && 0 < |sid| < 256 && |secret| >= KEY && align > 0
    ensures var msg := Message(c, nonce, sid, secret, plain, align);
            |msg| > IDLEN && msg[IDLEN] == |sid|
    ensures |Padded(plain, align)| == |plain| + Padding(|plain|, align)
  {
    hide BigEndian, FromBigEndian, Header;
    var p := Padded(plain, align);
    HeaderParts(nonce, MAC + |p|, sid, Seal(c, secret[..KEY], nonce, p));
  }
}
