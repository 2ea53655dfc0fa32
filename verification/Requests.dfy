/** Request urls: what the client builds, and what the server makes of them. */
module Requests {
  import opened Urls
  import opened Wire
  import opened Wrappers

  // ------------------------------------------------- the client

  const SIGIL := "/fs123/7/"

  /** A request of the client: a name, and what it asks about it. */
  datatype Request =
    | Attr(name: string)
    | Dir(name: string, kib: nat, start: string)
    | File(name: string, kib: nat, offset: nat)
    | Link(name: string)
    | Statfs(name: string)
    | Xattr(name: string, kib: nat, attr: string)

  /** add_cachetag. */
  function Tagged(url: string, hasQuery: bool, tag: nat): string {
    if tag == 0 then url else url + (if hasQuery then ";" else "?") + ToDec(tag)
  }

  function Stem(r: Request, tag: nat): string {
    match r
    case Attr(name) => Tagged("/a" + Escape(name), false, tag)
    case Dir(name, kib, start) => Tagged("/d" + Escape(name) + "?" + ToDec(kib) + ";" + Escape(start), true, tag)
    case File(name, kib, offset) => Tagged("/f" + Escape(name) + "?" + ToDec(kib) + ";" + ToDec(offset), true, tag)
    case Link(name) => Tagged("/l" + Escape(name), false, tag)
    case Statfs(name) => Tagged("/s" + Escape(name), false, tag)
    case Xattr(name, kib, attr) => Tagged("/x" + Escape(name) + "?" + ToDec(kib) + ";" + Escape(attr) + ";", true, tag)
  }

  /** add_sigil_version, with protocol 7.3; None is a throw. */
  function AddSigil(prefix: string): Option<string> {
    if Find(prefix, "/fs123/", 0).Some? || EndsWith(prefix, "/fs123") then None
    else Some(prefix + SIGIL + "3")
  }

  /** For example. */
  lemma SomeRequests()
    ensures Stem(File("/a b", 128, 4), 0) == "/f" + "/a%20b" + "?" + "128" + ";" + "4"
    ensures Stem(Xattr("", 8, "u"), 7) == "/x" + "" + "?" + "8" + ";" + "u" + ";" + ";" + "7"
    ensures Stem(Attr("/a"), 7) == "/a" + "/a" + "?" + "7"
  {
    SomeNumbers();
    EscapedSpace();
    PlainEscapes();
    hide Escape, ToDec;
  }

  lemma SomeNumbers()
    ensures ToDec(128) == "128" && ToDec(4) == "4" && ToDec(8) == "8" && ToDec(7) == "7"
  {
  }

  lemma EscapedSpace()
    ensures Escape("/a b") == "/a%20b"
  {
    var s := "/a b";
    assert s[1..] == "a b" && "a b"[1..] == " b" && " b"[1..] == "b" && "b"[1..] == "";
    assert EscapeChar(' ') == "%20";
  }

  lemma PlainEscapes()
    ensures Escape("") == "" && Escape("/a") == "/a" && Escape("u") == "u"
  {
    assert "/a"[1..] == "a" && "a"[1..] == "" && "u"[1..] == "";
  }

  /** The sigil and the version are added unless the prefix has a component "/fs123". */
  lemma AddSigilExactly(prefix: string)
    ensures AddSigil(prefix) == None <==> (exists j: nat :: Occurs(prefix, "/fs123/", j)) || EndsWith(prefix, "/fs123")
    ensures AddSigil(prefix).Some? ==> AddSigil(prefix).value == prefix + "/fs123/7/3"
  {
    hide Occurs, EndsWith;
    if j: nat :| Occurs(prefix, "/fs123/", j) {
      assert Find(prefix, "/fs123/", 0).Some?;
    }
    assert prefix + SIGIL + "3" == prefix + "/fs123/7/3";
  }

  predicate EndsWith(s: string, t: string) {
    |t| <= |s| && s[|s| - |t|..] == t
  }

  // ------------------------------------------------- the server

  /** What the handler is called with. */
  datatype Args =
    | NoArgs
    | DirArgs(kib: nat, start: string)
    | FileArgs(kib: nat, offset: nat)
    | XattrArgs(kib: nat, attr: string)

  datatype Parsed = Parsed(selector: string, fn: string, path: string, args: Args)

  /** A parsed request, or an error status. */
  datatype Result = Ok(parsed: Parsed) | Error

  /** A C string ends at the first NUL. */
  function CString(s: string): string {
    Before(s, '\0')
  }

  /** The text before the first c, or all of it. */
  function Before(s: string, c: char): string {
    var n := FindChar(s, c, 0);
    if n.Some? then s[..n.value] else s
  }

  /** The path and the query of a request target, whose fragment does not count. */
  function Split(url: string): (string, string) {
    var target := Before(url, '#');
    var q := FindChar(target, '?', 0);
    if q.None? then (target, "") else (target[..q.value], target[q.value + 1..])
  }

  predicate ValidPath(p: string) {
    p == "" || (p[0] == '/' && '\0' !in p && Find(p, "/../", 0).None? && !EndsWith(p, "/.."))
  }

  /** Two dots make up a whole component of the path. */
  ghost predicate Climbs(p: string) {
    exists i: nat :: ClimbsAt(p, i)
  }

  predicate ClimbsAt(p: string, i: nat) {
    i + 3 <= |p| && p[i] == '/' && p[i + 1] == '.' && p[i + 2] == '.' && (i + 3 == |p| || p[i + 3] == '/')
  }

  /** A path is good if it is empty, or starts with a slash, has no NUL and does not
      climb. */
  lemma ValidPathExactly(p: string)
    ensures ValidPath(p) <==> p == "" || (p[0] == '/' && '\0' !in p && !Climbs(p))
  {
    hide Find;
    if p != "" {
      if i: nat :| ClimbsAt(p, i) {
        if i + 3 == |p| {
          assert p[|p| - 3..] == "/..";
        } else {
          assert p[i..i + 4] == "/../";
          assert Occurs(p, "/../", i);
        }
      }
      if Find(p, "/../", 0).Some? {
        var i := Find(p, "/../", 0).value;
        assert p[i..i + 4][0] == p[i] && p[i..i + 4][1] == p[i + 1] && p[i..i + 4][2] == p[i + 2] && p[i..i + 4][3] == p[i + 3];
        assert ClimbsAt(p, i);
      }
      if EndsWith(p, "/..") {
        var i: nat := |p| - 3;
        assert p[i..][0] == p[i] && p[i..][1] == p[i + 1] && p[i..][2] == p[i + 2];
        assert ClimbsAt(p, i);
      }
    }
  }

  /** Whatever the target, a request is accepted only for one of the six functions, for a
      path that does not climb, and within the server's limits. */
  lemma AcceptedWithinLimits(target: string, maxReply: nat)
    ensures var r := ParseTarget(target, maxReply);
            r.Ok? ==>
              && (r.parsed.path == "" || (r.parsed.path[0] == '/' && '\0' !in r.parsed.path && !Climbs(r.parsed.path)))
              && (match r.parsed.args
                  case DirArgs(kib, _) => r.parsed.fn == "d" && kib * 1024 <= maxReply
                  case FileArgs(kib, offset) => r.parsed.fn == "f" && kib * 1024 <= maxReply && offset * 1024 <= U64_MAX
                  case XattrArgs(kib, attr) => r.parsed.fn == "x" && kib * 1024 <= maxReply
                  case NoArgs => r.parsed.fn in {"a", "l", "s"})
  {
    hide ValidPath, Climbs, ScanUnsigned, ScanSigned, Decode, CString, Unescape, Find, FindChar, Split;
    var r := ParseTarget(target, maxReply);
    if r.Ok? {
      ValidPathExactly(r.parsed.path);
    }
  }

  /** The minor version is two or three. */
  lemma AcceptedVersions(path: string, query: string, maxReply: nat)
    ensures ParsePath(path, query, maxReply).Ok? ==>
              && Find(path, SIGIL, 0).Some?
              && var minor := ScanSigned(path, UINT_MAX, Find(path, SIGIL, 0).value + |SIGIL|);
              minor.Some? && (minor.value.0 == 2 || minor.value.0 == 3) && minor.value.1 < |path| && path[minor.value.1] == '/'
  {
    hide ValidPath, ParseQuery, ScanSigned, Find, FindChar;
  }

  function ParseTarget(target: string, maxReply: nat): Result {
    var (rawPath, query) := Split(target);
    ParsePath(CString(Decode(rawPath)), query, maxReply)
  }

  function ParsePath(path: string, query: string, maxReply: nat): Result {
    var sigil := Find(path, SIGIL, 0);
    if sigil.None? then Error
    else
      var minor := ScanSigned(path, UINT_MAX, sigil.value + |SIGIL|);
      if minor.None? then Error
      else if !(2 <= minor.value.0 <= 3) then Error
      else
        var next := minor.value.1 + 1;
        if |path| <= next || path[next - 1] != '/' then Error
        else
          var slash := FindChar(path, '/', next);
          var fn := if slash.Some? then path[next..slash.value] else path[next..];
          var info := if slash.Some? then path[slash.value..] else "";
          if !ValidPath(info) then Error
          else
            var args := ParseQuery(fn, query, maxReply);
            if args.None? then Error else Ok(Parsed(path[..sigil.value], fn, info, args.value))
  }

  /** The queries of protocol 7.3; None is an error. */
  function ParseQuery(fn: string, query: string, maxReply: nat): Option<Args> {
    if fn == "d" then ParseDir(query, maxReply)
    else if fn == "f" then ParseFile(query, maxReply)
    else if fn == "x" then ParseXattr(query, maxReply)
    else if fn == "a" || fn == "l" || fn == "s" then Some(NoArgs)
    else None
  }

  function ParseDir(query: string, maxReply: nat): Option<Args> {
    var (kib, next) :- ScanUnsigned(query, U64_MAX, 0);
    if next >= |query| || (query[next] != ';' && query[next] != ',') then None
    else if kib > maxReply / 1024 then None
    else
      var start :- Unescape(query[next + 1..]);
      Some(DirArgs(kib, start))
  }

  function ParseFile(query: string, maxReply: nat): Option<Args> {
    var (kib, next) :- ScanUnsigned(query, U64_MAX, 0);
    var (offset, _) :- ScanUnsigned(query, U64_MAX, next + 1);
    if kib > maxReply / 1024 || offset > U64_MAX / 1024 then None else Some(FileArgs(kib, offset))
  }

  function ParseXattr(query: string, maxReply: nat): Option<Args> {
    var (kib, first) :- ScanUnsigned(query, U64_MAX, 0);
    if kib > maxReply / 1024 || first >= |query| || query[first] != ';' then None
    else
      var second :- FindChar(query, ';', first + 1);
      Some(XattrArgs(kib, CString(Decode(query[first + 1..second]))))
  }

  // ------------------------------------------------- the round trip

  function Letter(r: Request): char {
    match r
    case Attr(_) => 'a'
    case Dir(_, _, _) => 'd'
    case File(_, _, _) => 'f'
    case Link(_) => 'l'
    case Statfs(_) => 's'
    case Xattr(_, _, _) => 'x'
  }

  /** The part of the request after its path; None if there is no question mark. */
  function Query(r: Request, tag: nat): Option<string> {
    match r
    case Dir(_, kib, start) => Some(Tagged(ToDec(kib) + ";" + Escape(start), true, tag))
    case File(_, kib, offset) => Some(Tagged(ToDec(kib) + ";" + ToDec(offset), true, tag))
    case Xattr(_, kib, attr) => Some(Tagged(ToDec(kib) + ";" + Escape(attr) + ";", true, tag))
    case _ => if tag == 0 then None else Some(ToDec(tag))
  }

  function QueryPart(q: Option<string>): string {
    if q.None? then "" else "?" + q.value
  }

  lemma StemParts(r: Request, tag: nat)
    ensures Stem(r, tag) == "/" + [Letter(r)] + Escape(r.name) + QueryPart(Query(r, tag))
  {
    hide Escape, ToDec, Tagged, QueryPart;
    var e := Escape(r.name);
    match r {
      case Dir(_, kib, start) => QueryShape("/d", e, ToDec(kib), Escape(start), tag);
      case File(_, kib, offset) => QueryShape("/f", e, ToDec(kib), ToDec(offset), tag);
      case Xattr(_, kib, attr) =>
        assert ToDec(kib) + ";" + Escape(attr) + ";" == ToDec(kib) + ";" + (Escape(attr) + ";");
        assert "/x" + e + "?" + ToDec(kib) + ";" + Escape(attr) + ";" == "/x" + e + "?" + ToDec(kib) + ";" + (Escape(attr) + ";");
        QueryShape("/x", e, ToDec(kib), Escape(attr) + ";", tag);
      case Attr(_) => NoQueryShape("/a", e, tag);
      case Link(_) => NoQueryShape("/l", e, tag);
      case Statfs(_) => NoQueryShape("/s", e, tag);
    }
  }

  lemma QueryShape(letter: string, e: string, a: string, b: string, tag: nat)
    ensures Tagged(letter + e + "?" + a + ";" + b, true, tag) == letter + e + QueryPart(Some(Tagged(a + ";" + b, true, tag)))
  {
    hide ToDec;
    var q := a + ";" + b;
    assert letter + e + "?" + a + ";" + b == letter + e + ("?" + q);
    if tag != 0 {
      assert letter + e + ("?" + q) + ";" + ToDec(tag) == letter + e + ("?" + (q + ";" + ToDec(tag)));
    }
  }

  lemma NoQueryShape(letter: string, e: string, tag: nat)
    ensures Tagged(letter + e, false, tag) == letter + e + QueryPart(if tag == 0 then None else Some(ToDec(tag)))
  {
    hide ToDec;
    assert letter + e + "" == letter + e;
    assert letter + e + "?" + ToDec(tag) == letter + e + ("?" + ToDec(tag));
  }

  /** What the handler is to be called with. A nonzero cachetag of a /d request is read
      back as the end of its start. */
  function ArgsOf(r: Request, tag: nat): Args {
    match r
    case Dir(_, kib, start) => DirArgs(kib, if tag == 0 then start else start + ";" + ToDec(tag))
    case File(_, kib, offset) => FileArgs(kib, offset)
    case Xattr(_, kib, attr) => XattrArgs(kib, attr)
    case _ => NoArgs
  }

  /** Names are file names' bytes, without NUL, and start with a slash unless they are
      empty; numbers are in the server's range. */
  predicate Sendable(r: Request, maxReply: nat) {
    && IsBytes(r.name) && '\0' !in r.name && (r.name == "" || r.name[0] == '/')
    && match r
       case Dir(_, kib, start) => kib <= maxReply / 1024 && kib <= U64_MAX && IsBytes(start)
       case File(_, kib, offset) => kib <= maxReply / 1024 && kib <= U64_MAX && offset <= U64_MAX / 1024
       case Xattr(_, kib, attr) => kib <= maxReply / 1024 && kib <= U64_MAX && IsBytes(attr) && '\0' !in attr
       case _ => true
  }

  lemma NothingBefore(s: string, c: char)
    requires c !in s
    ensures Before(s, c) == s
  {
  }

  lemma SplitParts(raw: string, q: Option<string>)
    requires '?' !in raw && '#' !in raw && '#' !in QueryPart(q)
    ensures Split(raw + QueryPart(q)) == (raw, if q.None? then "" else q.value)
  {
    hide FindChar, Before;
    NothingBefore(raw + QueryPart(q), '#');
    if q.None? {
      assert raw + "" == raw;
    } else {
      var s := raw + ("?" + q.value);
      QuestionAt(raw, q.value);
      assert s[..|raw|] == raw && s[|raw| + 1..] == q.value;
    }
  }

  lemma QuestionAt(raw: string, query: string)
    requires '?' !in raw
    ensures FindChar(raw + ("?" + query), '?', 0) == Some(|raw|)
  {
    hide FindChar;
    var s := raw + ("?" + query);
    assert s[|raw|] == '?';
    forall k | 0 <= k < |raw| ensures s[k] != '?' {
      assert s[k] == raw[k];
    }
  }

  lemma NotHex()
    ensures NonHex('/') && NonHex('?') && NonHex('#')
  {
  }

  /** The path that the server decodes. */
  lemma DecodedPath(prefix: string, middle: string, name: string)
    requires IsBytes(name) && '%' !in middle && middle != "" && middle[0] == '/'
    ensures Decode(prefix + middle + Escape(name)) == Decode(prefix) + middle + name
  {
    hide Decode, Escape;
    var e := Escape(name);
    assert prefix + middle + e == prefix + (middle + e);
    NotHex();
    DecodeBeforeNonHex(prefix, middle + e);
    DecodePlain(middle, e);
    DecodeEscape(name, "");
    assert e + "" == e;
    DecodeEmpty();
    assert name + "" == name;
    assert Decode(prefix) + (middle + name) == Decode(prefix) + middle + name;
  }

  /** The server finds the sigil where the client put it exactly when the decoded
      prefix, with a slash after it, has none. */
  lemma SigilIsFirst(d: string, rest: string)
    requires |rest| >= |SIGIL| && rest[..|SIGIL|] == SIGIL
    ensures Find(d + rest, SIGIL, 0) == Some(|d|) <==> Find(d + "/", SIGIL, 0).None?
  {
    hide Find;
    var s := d + rest;
    assert s[|d|..|d| + |SIGIL|] == SIGIL;
    assert Occurs(s, SIGIL, |d|);
    forall j: nat | j < |d| ensures Occurs(s, SIGIL, j) <==> Occurs(d + "/", SIGIL, j) {
      if j + |SIGIL| <= |d| + 1 {
        SameSlice(d, rest, j, j + |SIGIL|);
      } else {
        NoOverlap(d, rest, j);
      }
    }
  }

  lemma SameSlice(d: string, rest: string, i: nat, j: nat)
    requires i <= j <= |d| + 1 && rest != "" && rest[0] == '/'
    ensures (d + rest)[i..j] == (d + "/")[i..j]
  {
    var x, y := (d + rest)[i..j], (d + "/")[i..j];
    forall k | 0 <= k < |x| ensures x[k] == y[k] {
      assert x[k] == (d + rest)[i + k] && y[k] == (d + "/")[i + k];
    }
  }

  /** A sigil cannot begin in the prefix and end after the first slash of another. */
  lemma NoOverlap(d: string, rest: string, j: nat)
    requires |rest| >= |SIGIL| && rest[..|SIGIL|] == SIGIL && j < |d| && j + |SIGIL| > |d| + 1
    ensures !Occurs(d + rest, SIGIL, j)
  {
    var s := d + rest;
    var k := |d| + 1 - j;
    assert s[|d| + 1] == rest[1] == rest[..|SIGIL|][1] == 'f';
    assert SIGIL[k] != 'f';
    if j + |SIGIL| <= |s| {
      assert s[j..j + |SIGIL|][k] == s[j + k];
    }
  }

  /** A prefix that add_sigil_version accepts has no sigil of its own, as long as it is
      not hidden in an escape. */
  lemma AcceptedHasNoSigil(prefix: string)
    requires AddSigil(prefix).Some?
    ensures Find(prefix + "/", SIGIL, 0).None?
  {
    var s := prefix + "/";
    var part := "/fs123/";
    assert SIGIL[..|part|] == part;
    forall j: nat | Occurs(s, SIGIL, j) ensures Occurs(prefix, part, j) {
      assert s[j..j + |SIGIL|][..|part|] == s[j..j + |part|];
      assert prefix[j..j + |part|] == s[j..j + |part|];
    }
  }

  /** An escape can hide one: the prefix is accepted, but the server stops at its sigil. */
  lemma EscapedSigilIsAccepted()
    ensures var prefix := "/%66s123/7/3";
            AddSigil(prefix).Some? && Find(Decode(prefix) + "/", SIGIL, 0) == Some(0)
  {
    var prefix := "/%66s123/7/3";
    HiddenSigil();
    hide Decode;
    assert (Decode(prefix) + "/")[0..|SIGIL|] == SIGIL;
    assert Occurs(Decode(prefix) + "/", SIGIL, 0);
    forall j: nat ensures !Occurs(prefix, "/fs123/", j) {
      if j + 7 <= |prefix| {
        assert prefix[j..j + 7][1] == prefix[j + 1];
        assert prefix[j + 1] != 'f';
      }
    }
    assert prefix[|prefix| - 6..][1] == prefix[|prefix| - 5];
  }

  lemma HiddenSigil()
    ensures Decode("/%66s123/7/3") == "/fs123/7/3"
  {
    var tail := "s123/7/3";
    assert '%' !in tail;
    Spelled();
    hide *;
    HiddenLetter(tail);
    DecodePlain("/", "%66" + tail);
  }

  lemma Spelled()
    ensures "/%66s123/7/3" == "/" + ("%66" + "s123/7/3")
    ensures "/" + (['f'] + "s123/7/3") == "/fs123/7/3"
  {
  }

  lemma HiddenLetter(tail: string)
    requires '%' !in tail
    ensures Decode("%66" + tail) == ['f'] + tail
  {
    assert Hex('6', '6') == Some('f');
    hide Hex, Decode;
    DecodePlain(tail, "");
    DecodeEmpty();
    assert tail + "" == tail;
    DecodeFirst("%66" + tail);
    assert ("%66" + tail)[3..] == tail;
  }

  /** What the server makes of a path that has its sigil where the client put it. */
  lemma ParsedPath(d: string, letter: char, name: string, query: string, maxReply: nat)
    requires Find(d + "/", SIGIL, 0).None? && letter != '/' && (name == "" || name[0] == '/')
    ensures ParsePath(d + (SIGIL + "3/" + [letter]) + name, query, maxReply)
            == if !ValidPath(name) || ParseQuery([letter], query, maxReply).None? then Error
               else Ok(Parsed(d, [letter], name, ParseQuery([letter], query, maxReply).value))
  {
    hide *;
    var path, sigil := d + (SIGIL + "3/" + [letter]) + name, SIGIL;
    var n := |d| + |sigil|;
    PathParts(d, letter, name);
    MinorVersion(path, n);
    FnAndInfo(path, n, letter, name);
    ParsedAs(path, |d|, n, [letter], name, query, maxReply);
  }

  lemma PathParts(d: string, letter: char, name: string)
    requires Find(d + "/", SIGIL, 0).None?
    ensures var path, n := d + (SIGIL + "3/" + [letter]) + name, |d| + |SIGIL|;
            && Find(path, SIGIL, 0) == Some(|d|) && path[..|d|] == d
            && |path| == n + 3 + |name| && path[n] == '3' && path[n + 1] == '/' && path[n + 2] == letter
            && path[n + 3..] == name
  {
    hide Find;
    var path := d + (SIGIL + "3/" + [letter]) + name;
    var rest := SIGIL + "3/" + [letter] + name;
    assert path == d + rest;
    assert rest[..|SIGIL|] == SIGIL;
    SigilIsFirst(d, rest);
  }

  /** The function's letter, and the rest of the path. */
  lemma FnAndInfo(path: string, n: nat, letter: char, name: string)
    requires |path| == n + 3 + |name| && path[n + 2] == letter != '/' && path[n + 3..] == name && (name == "" || name[0] == '/')
    ensures var slash := FindChar(path, '/', n + 2);
            && (if slash.Some? then path[n + 2..slash.value] else path[n + 2..]) == [letter]
            && (if slash.Some? then path[slash.value..] else "") == name
  {
    if name == "" {
      assert FindChar(path, '/', n + 2) == None;
      assert path[n + 2..] == [letter];
    } else {
      assert path[n + 3] == name[0];
      assert FindChar(path, '/', n + 2) == Some(n + 3);
      assert path[n + 2..n + 3] == [letter];
    }
  }

  lemma ParsedAs(path: string, m: nat, n: nat, fn: string, info: string, query: string, maxReply: nat)
    requires Find(path, SIGIL, 0) == Some(m) && n == m + |SIGIL| && n + 2 < |path| && path[n + 1] == '/'
    requires ScanSigned(path, UINT_MAX, n) == Some((3, n + 1))
    requires var slash := FindChar(path, '/', n + 2);
             && (if slash.Some? then path[n + 2..slash.value] else path[n + 2..]) == fn
             && (if slash.Some? then path[slash.value..] else "") == info
    ensures ParsePath(path, query, maxReply)
            == if !ValidPath(info) || ParseQuery(fn, query, maxReply).None? then Error
               else Ok(Parsed(path[..m], fn, info, ParseQuery(fn, query, maxReply).value))
  {
    hide ValidPath, ParseQuery, ScanSigned, Find, FindChar;
  }

  lemma MinorVersion(path: string, n: nat)
    requires n + 1 < |path| && path[n] == '3' && path[n + 1] == '/'
    ensures ScanSigned(path, UINT_MAX, n) == Some((3, n + 1))
  {
    assert ToDec(3) == "3";
    assert path[n..n + 1] == "3";
    ScanSignedOfDec(path, UINT_MAX, n, n, 3);
  }

  /** A decimal number and then text, scanned. */
  lemma NumberThen(s: string, n: nat, rest: string)
    requires s == ToDec(n) + rest && n <= U64_MAX && rest != "" && rest[0] == ';'
    ensures ScanUnsigned(s, U64_MAX, 0) == Some((n, |ToDec(n)|))
    ensures s[|ToDec(n)|] == ';' && s[|ToDec(n)| + 1..] == rest[1..] && |s| == |ToDec(n)| + |rest|
  {
    hide ScanUnsigned, ToDec;
    assert "" + ToDec(n) + rest == s;
    AtHere("", ToDec(n), rest);
    assert s[0] == ToDec(n)[0];
    NotSpace(s);
    ScanUnsignedOfDec(s, 0, 0, n, U64_MAX);
  }

  lemma NotSpace(s: string)
    requires s != "" && IsDigit(s[0])
    ensures SkipWhite(s, 0) == 0
  {
  }

  /** A tag after text. */
  function TagText(tag: nat): string {
    if tag == 0 then "" else ";" + ToDec(tag)
  }

  lemma TaggedIs(q: string, tag: nat)
    ensures Tagged(q, true, tag) == q + TagText(tag)
  {
    hide ToDec;
    assert q + "" == q;
    assert q + ";" + ToDec(tag) == q + (";" + ToDec(tag));
  }

  lemma DirQuery(kib: nat, start: string, tag: nat, maxReply: nat)
    requires kib <= maxReply / 1024 && kib <= U64_MAX && IsBytes(start)
    ensures ParseDir(Tagged(ToDec(kib) + ";" + Escape(start), true, tag), maxReply)
            == Some(DirArgs(kib, if tag == 0 then start else start + ";" + ToDec(tag)))
  {
    hide *;
    var e, t := Escape(start), TagText(tag);
    TaggedIs(ToDec(kib) + ";" + e, tag);
    var q := ToDec(kib) + ";" + e + t;
    assert q == ToDec(kib) + (";" + e + t);
    NumberThen(q, kib, ";" + e + t);
    assert (";" + e + t)[1..] == e + t;
    DecodeEscape(start, t);
    TagDecodes(tag);
    TagIs(start, tag);
    PrependSome(start, t);
    DirParsed(q, kib, |ToDec(kib)|, start + t, maxReply);
  }

  lemma PrependSome(a: string, b: string)
    ensures Prepend(a, Some(b)) == Some(a + b)
  {
  }

  lemma TagIs(start: string, tag: nat)
    ensures start + TagText(tag) == if tag == 0 then start else start + ";" + ToDec(tag)
  {
    hide ToDec;
    assert start + "" == start;
    assert start + ";" + ToDec(tag) == start + (";" + ToDec(tag));
  }

  lemma DirParsed(q: string, kib: nat, n: nat, start: string, maxReply: nat)
    requires ScanUnsigned(q, U64_MAX, 0) == Some((kib, n)) && n < |q| && q[n] == ';' && kib <= maxReply / 1024
    requires Unescape(q[n + 1..]) == Some(start)
    ensures ParseDir(q, maxReply) == Some(DirArgs(kib, start))
  {
    hide ScanUnsigned, Unescape;
  }

  lemma TagDecodes(tag: nat)
    ensures Unescape(TagText(tag)) == Some(TagText(tag))
  {
    var t := TagText(tag);
    assert '%' !in t;
    DecodePlain(t, "");
    assert t + "" == t;
    UnescapeEmpty();
  }

  lemma UnescapeEmpty()
    ensures Unescape("") == Some("")
  {
  }

  lemma FileQuery(kib: nat, offset: nat, tag: nat, maxReply: nat)
    requires kib <= maxReply / 1024 && kib <= U64_MAX && offset <= U64_MAX / 1024
    ensures ParseFile(Tagged(ToDec(kib) + ";" + ToDec(offset), true, tag), maxReply) == Some(FileArgs(kib, offset))
  {
    hide ScanUnsigned, ToDec, Tagged, TagText, ParseFile, At;
    var a, b, t := ToDec(kib), ToDec(offset), TagText(tag);
    TaggedIs(a + ";" + b, tag);
    var q := a + ";" + b + t;
    assert q == a + (";" + b + t);
    NumberThen(q, kib, ";" + b + t);
    SecondNumber(a + ";", offset, tag);
    FileParsed(q, kib, |a|, offset, |a| + 1 + |b|, maxReply);
  }

  lemma SecondNumber(before: string, offset: nat, tag: nat)
    requires offset <= U64_MAX
    ensures ScanUnsigned(before + ToDec(offset) + TagText(tag), U64_MAX, |before|) == Some((offset, |before| + |ToDec(offset)|))
  {
    var b, t, n := ToDec(offset), TagText(tag), |before|;
    var q := before + b + t;
    hide ScanUnsigned, ToDec;
    AtHere(before, b, t);
    assert q[n] == b[0];
    DigitHere(q, n);
    assert n + |b| < |q| ==> q[n + |b|] == t[0] == ';';
    ScanUnsignedOfDec(q, n, n, offset, U64_MAX);
  }

  lemma FileParsed(q: string, kib: nat, n: nat, offset: nat, m: nat, maxReply: nat)
    requires ScanUnsigned(q, U64_MAX, 0) == Some((kib, n)) && ScanUnsigned(q, U64_MAX, n + 1) == Some((offset, m))
    requires kib <= maxReply / 1024 && offset <= U64_MAX / 1024
    ensures ParseFile(q, maxReply) == Some(FileArgs(kib, offset))
  {
    hide ScanUnsigned;
  }

  lemma DigitHere(s: string, i: nat)
    requires i < |s| && IsDigit(s[i])
    ensures SkipWhite(s, i) == i
  {
  }

  lemma XattrQuery(kib: nat, attr: string, tag: nat, maxReply: nat)
    requires kib <= maxReply / 1024 && kib <= U64_MAX && IsBytes(attr) && '\0' !in attr
    ensures ParseXattr(Tagged(ToDec(kib) + ";" + Escape(attr) + ";", true, tag), maxReply) == Some(XattrArgs(kib, attr))
  {
    hide *;
    var a, e, t := ToDec(kib), Escape(attr), TagText(tag);
    var q := a + ";" + e + ";" + t;
    TaggedIs(a + ";" + e + ";", tag);
    assert q == a + (";" + e + ";" + t);
    NumberThen(q, kib, ";" + e + ";" + t);
    SecondSemicolon(a, attr, t);
    AttrDecodes(attr);
    XattrParsed(q, kib, |a|, |a| + 1 + |e|, attr, maxReply);
  }

  lemma AttrDecodes(attr: string)
    requires IsBytes(attr) && '\0' !in attr
    ensures CString(Decode(Escape(attr))) == attr
  {
    hide Decode, Escape, CString;
    DecodeEscape(attr, "");
    DecodeEmpty();
    assert Escape(attr) + "" == Escape(attr) && attr + "" == attr;
    NoNul(attr);
  }

  lemma NoNul(s: string)
    requires '\0' !in s
    ensures CString(s) == s
  {
  }

  lemma SecondSemicolon(a: string, attr: string, t: string)
    ensures var q, e := a + ";" + Escape(attr) + ";" + t, Escape(attr);
            FindChar(q, ';', |a| + 1) == Some(|a| + 1 + |e|) && q[|a| + 1..|a| + 1 + |e|] == e
  {
    EscapedIsSafe(attr);
    hide Escape, FindChar;
    var e, n := Escape(attr), |a| + 1;
    var q := a + ";" + e + ";" + t;
    assert forall k :: n <= k < n + |e| ==> q[k] == e[k - n];
    assert q[n + |e|] == ';';
    assert q[n..n + |e|] == e;
  }

  lemma XattrParsed(q: string, kib: nat, n: nat, m: nat, attr: string, maxReply: nat)
    requires ScanUnsigned(q, U64_MAX, 0) == Some((kib, n)) && n < |q| && q[n] == ';' && kib <= maxReply / 1024
    requires FindChar(q, ';', n + 1) == Some(m) && CString(Decode(q[n + 1..m])) == attr
    ensures ParseXattr(q, maxReply) == Some(XattrArgs(kib, attr))
  {
    hide ScanUnsigned, Decode, CString, FindChar;
  }

  lemma QueryIsRead(r: Request, tag: nat, maxReply: nat)
    requires Sendable(r, maxReply)
    ensures var q := Query(r, tag);
            ParseQuery([Letter(r)], if q.None? then "" else q.value, maxReply) == Some(ArgsOf(r, tag))
  {
    hide ScanUnsigned, ToDec, Escape, Unescape, Decode, Tagged, ParseDir, ParseFile, ParseXattr;
    match r {
      case Dir(_, kib, start) => DirQuery(kib, start, tag, maxReply);
      case File(_, kib, offset) => FileQuery(kib, offset, tag, maxReply);
      case Xattr(_, kib, attr) => XattrQuery(kib, attr, tag, maxReply);
      case _ =>
    }
  }

  /** A prefix that is all path, and is the selector: no question mark, no fragment, and
      neither a NUL nor a sigil once it is decoded. */
  predicate Clean(prefix: string) {
    '?' !in prefix && '#' !in prefix && '\0' !in Decode(prefix) && Find(Decode(prefix) + "/", SIGIL, 0).None?
  }

  /** What the server should be asked: the client's request, under the decoded prefix. */
  function Wanted(prefix: string, r: Request, tag: nat): Result {
    Ok(Parsed(Decode(prefix), [Letter(r)], r.name, ArgsOf(r, tag)))
  }

  /** For every request and every prefix that add_sigil_version accepts, the server reads
      back what the client asked, that is selector, function, path and query values, if
      and only if the prefix is clean and the path does not climb. */
  lemma RoundTrip(prefix: string, r: Request, tag: nat, maxReply: nat)
    requires AddSigil(prefix).Some? && Sendable(r, maxReply)
    ensures var seen := ParseTarget(AddSigil(prefix).value + Stem(r, tag), maxReply);
            && (seen == Wanted(prefix, r, tag) <==> Clean(prefix) && ValidPath(r.name))
            && (Clean(prefix) && !ValidPath(r.name) ==> seen == Error)
  {
    hide *;
    var middle, query := SIGIL + "3/" + [Letter(r)], QueryPart(Query(r, tag));
    Target(prefix, r, tag);
    if '?' in prefix || '#' in prefix {
      ShortIsNoPath(prefix, middle + Escape(r.name) + query, maxReply, [Letter(r)], r.name, ArgsOf(r, tag));
      assert prefix + (middle + Escape(r.name) + query) == prefix + middle + Escape(r.name) + query;
    } else {
      PathIsRead(prefix, r, tag, maxReply);
      if '\0' in Decode(prefix) {
        NulIsNoPath(Decode(prefix), middle + r.name, QueryText(r, tag), maxReply, [Letter(r)], r.name, ArgsOf(r, tag));
        assert Decode(prefix) + (middle + r.name) == Decode(prefix) + middle + r.name;
      } else {
        NoNulInPath(prefix, r, maxReply);
        NoNul(Decode(prefix) + middle + r.name);
        ReadsName(prefix, r, tag, maxReply);
      }
    }
    CleanIs(prefix);
    WantedIs(prefix, r, tag);
  }

  lemma CleanIs(prefix: string)
    ensures Clean(prefix) <==> '?' !in prefix && '#' !in prefix && '\0' !in Decode(prefix) && Find(Decode(prefix) + "/", SIGIL, 0).None?
  {
    hide Decode, Find;
  }

  lemma WantedIs(prefix: string, r: Request, tag: nat)
    ensures Wanted(prefix, r, tag) == Ok(Parsed(Decode(prefix), [Letter(r)], r.name, ArgsOf(r, tag)))
  {
    hide Decode, ArgsOf;
  }

  function QueryText(r: Request, tag: nat): string {
    if Query(r, tag).None? then "" else Query(r, tag).value
  }

  lemma Target(prefix: string, r: Request, tag: nat)
    requires AddSigil(prefix).Some?
    ensures AddSigil(prefix).value + Stem(r, tag)
            == prefix + (SIGIL + "3/" + [Letter(r)]) + Escape(r.name) + QueryPart(Query(r, tag))
  {
    hide Escape, Stem, Query, QueryPart, Find;
    StemParts(r, tag);
    var e, q := Escape(r.name), QueryPart(Query(r, tag));
    assert prefix + SIGIL + "3" + ("/" + [Letter(r)] + e + q) == prefix + (SIGIL + "3/" + [Letter(r)]) + e + q;
  }

  lemma NoFragment(r: Request, tag: nat)
    ensures '#' !in QueryPart(Query(r, tag))
  {
    hide Escape, ToDec;
    match r {
      case Dir(_, kib, start) => EscapedIsSafe(start);
      case Xattr(_, kib, attr) => EscapedIsSafe(attr);
      case _ =>
    }
  }

  /** Without a question mark or a fragment in the prefix, the server parses the decoded prefix, the
      sigil and the name, up to a NUL. */
  lemma PathIsRead(prefix: string, r: Request, tag: nat, maxReply: nat)
    requires '?' !in prefix && '#' !in prefix && Sendable(r, maxReply)
    ensures var middle := SIGIL + "3/" + [Letter(r)];
            ParseTarget(prefix + middle + Escape(r.name) + QueryPart(Query(r, tag)), maxReply)
            == ParsePath(CString(Decode(prefix) + middle + r.name), QueryText(r, tag), maxReply)
  {
    hide Decode, Escape, Query, QueryPart, ParsePath, Split, ParseTarget, CString;
    var middle := SIGIL + "3/" + [Letter(r)];
    var raw := prefix + middle + Escape(r.name);
    RawIsPath(prefix, r, maxReply);
    NoFragment(r, tag);
    SplitParts(raw, Query(r, tag));
    DecodedPath(prefix, middle, r.name);
    TargetIs(raw + QueryPart(Query(r, tag)), raw, QueryText(r, tag), maxReply);
  }

  /** Where no NUL cuts the path short, only a sigil in the prefix or a path that climbs
      is in the way. */
  lemma ReadsName(prefix: string, r: Request, tag: nat, maxReply: nat)
    requires Sendable(r, maxReply)
    ensures var d := Decode(prefix);
            var seen := ParsePath(d + (SIGIL + "3/" + [Letter(r)]) + r.name, QueryText(r, tag), maxReply);
            && (seen == Ok(Parsed(d, [Letter(r)], r.name, ArgsOf(r, tag))) <==> Find(d + "/", SIGIL, 0).None? && ValidPath(r.name))
            && (Find(d + "/", SIGIL, 0).None? && !ValidPath(r.name) ==> seen == Error)
  {
    hide Decode, Query, ParsePath, ParseQuery, ArgsOf, Find, ValidPath;
    var d := Decode(prefix);
    var rest := SIGIL + "3/" + [Letter(r)] + r.name;
    assert d + (SIGIL + "3/" + [Letter(r)]) + r.name == d + rest;
    assert rest[..|SIGIL|] == SIGIL;
    if Find(d + "/", SIGIL, 0).None? {
      QueryIsRead(r, tag, maxReply);
      ParsedPath(d, Letter(r), r.name, QueryText(r, tag), maxReply);
    } else {
      SigilIsFirst(d, rest);
      SelectorEndsAtSigil(d + rest, QueryText(r, tag), maxReply);
    }
  }

  /** The selector is what comes before the sigil, and the path goes on after that. */
  lemma SelectorEndsAtSigil(path: string, query: string, maxReply: nat)
    ensures var r := ParsePath(path, query, maxReply);
            r.Ok? ==> |r.parsed.selector| < |path| && Find(path, SIGIL, 0) == Some(|r.parsed.selector|)
  {
    hide ValidPath, ParseQuery, ScanSigned;
  }

  /** Where the path ends when it ends in the prefix. */
  lemma SplitInPrefix(prefix: string, rest: string) returns (n: nat)
    requires '?' in prefix || '#' in prefix
    ensures n < |prefix| && (prefix[n] == '?' || prefix[n] == '#') && Split(prefix + rest).0 == prefix[..n]
  {
    hide FindChar;
    var s := prefix + rest;
    assert forall k :: 0 <= k < |prefix| ==> s[k] == prefix[k];
    var target := Before(s, '#');
    var q := FindChar(target, '?', 0);
    n := if q.Some? then q.value else |target|;
    assert s[..n] == prefix[..n];
  }

  /** A question mark or a fragment in the prefix ends the path before the client's
      sigil. */
  lemma ShortIsNoPath(prefix: string, rest: string, maxReply: nat, fn: string, path: string, args: Args)
    requires '?' in prefix || '#' in prefix
    ensures ParseTarget(prefix + rest, maxReply) != Ok(Parsed(Decode(prefix), fn, path, args))
  {
    hide Decode, ParsePath, CString, Split;
    var n := SplitInPrefix(prefix, rest);
    var raw := prefix[..n];
    NotHex();
    DecodeBeforeNonHex(raw, prefix[n..]);
    assert raw + prefix[n..] == prefix;
    CStringIsShorter(Decode(raw));
    SelectorEndsAtSigil(CString(Decode(raw)), Split(prefix + rest).1, maxReply);
  }

  /** So does a NUL in the decoded prefix. */
  lemma NulIsNoPath(d: string, rest: string, query: string, maxReply: nat, fn: string, path: string, args: Args)
    requires '\0' in d
    ensures ParsePath(CString(d + rest), query, maxReply) != Ok(Parsed(d, fn, path, args))
  {
    hide ParsePath;
    var n := FindChar(d, '\0', 0).value;
    assert (d + rest)[n] == '\0';
    SelectorEndsAtSigil(CString(d + rest), query, maxReply);
  }

  lemma CStringIsShorter(s: string)
    ensures |CString(s)| <= |s|
  {
  }

  lemma RawIsPath(prefix: string, r: Request, maxReply: nat)
    requires '?' !in prefix && '#' !in prefix && Sendable(r, maxReply)
    ensures var middle := SIGIL + "3/" + [Letter(r)];
            && '?' !in prefix + middle + Escape(r.name) && '#' !in prefix + middle + Escape(r.name) && '%' !in middle && middle[0] == '/' && IsBytes(r.name)
  {
    EscapedIsSafe(r.name);
    hide Decode, Escape;
  }

  lemma NoNulInPath(prefix: string, r: Request, maxReply: nat)
    requires '\0' !in Decode(prefix) && Sendable(r, maxReply)
    ensures '\0' !in Decode(prefix) + (SIGIL + "3/" + [Letter(r)]) + r.name
  {
    hide Decode;
  }

  lemma TargetIs(target: string, raw: string, query: string, maxReply: nat)
    requires Split(target) == (raw, query)
    ensures ParseTarget(target, maxReply) == ParsePath(CString(Decode(raw)), query, maxReply)
  {
    hide Split, CString, Decode, ParsePath;
  }

  /** In particular for every base url that add_sigil_version accepts and that has no
      escapes of its own. */
  lemma PlainRoundTrip(prefix: string, r: Request, tag: nat, maxReply: nat)
    requires AddSigil(prefix).Some? && '%' !in prefix && Sendable(r, maxReply)
    ensures ParseTarget(AddSigil(prefix).value + Stem(r, tag), maxReply) == Ok(Parsed(prefix, [Letter(r)], r.name, ArgsOf(r, tag)))
            <==> '?' !in prefix && '#' !in prefix && '\0' !in prefix && ValidPath(r.name)
  {
    hide *;
    DecodePlain(prefix, "");
    DecodeEmpty();
    assert prefix + "" == prefix;
    AcceptedHasNoSigil(prefix);
    RoundTrip(prefix, r, tag, maxReply);
    CleanIs(prefix);
    WantedIs(prefix, r, tag);
  }
}
