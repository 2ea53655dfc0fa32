/** A stable directory cut into chunks by the server, and the byte offsets at which
    the client places its entries. */
module Chunking {
  import opened Wire
  import opened Dirents

  /** One server reply: some entries, and the token that asks for the next chunk
      (empty at the end of the directory). */
  datatype Chunk = Chunk(entries: seq<Dirent>, next: string)

  type Server = string -> (string, string)

  ghost function Flat(cks: seq<Chunk>): seq<Dirent> {
    if cks == [] then [] else cks[0].entries + Flat(cks[1..])
  }

  /** Any chunking the server's reply guard allows: an empty chunk only at the end. */
  ghost predicate WellChunked(cks: seq<Chunk>) {
    && |cks| > 0
    && (forall j :: 0 <= j < |cks| ==> AllLegal(cks[j].entries))
    && (forall j :: 0 <= j < |cks| ==> (cks[j].next == "" <==> j == |cks| - 1))
    && (forall j :: 0 <= j < |cks| - 1 ==> cks[j].entries != [])
  }

  function Token(cks: seq<Chunk>, j: nat): string
    requires j <= |cks|
  {
    if j == 0 then "" else cks[j - 1].next
  }

  /** The directory is stable: asking with the token of chunk j always gives chunk j. */
  ghost predicate Serves(server: Server, cks: seq<Chunk>)
    requires WellChunked(cks)
  {
    forall j :: 0 <= j < |cks| ==> server(Token(cks, j)) == (EncodeAll(cks[j].entries), cks[j].next)
  }

  lemma {:induction false} FlatConcat(a: seq<Chunk>, b: seq<Chunk>)
    ensures Flat(a + b) == Flat(a) + Flat(b)
  {
    if a == [] {
      assert a + b == b;
    } else {
      assert (a + b)[1..] == a[1..] + b;
      FlatConcat(a[1..], b);
    }
  }

  lemma FlatNext(cks: seq<Chunk>, j: nat)
    requires j < |cks|
    ensures Flat(cks[..j + 1]) == Flat(cks[..j]) + cks[j].entries
  {
    assert cks[..j + 1] == cks[..j] + [cks[j]];
    FlatConcat(cks[..j], [cks[j]]);
    assert [cks[j]][1..] == [];
  }

  lemma {:induction false} FlatLegal(cks: seq<Chunk>)
    requires forall j :: 0 <= j < |cks| ==> AllLegal(cks[j].entries)
    ensures AllLegal(Flat(cks))
  {
    if cks != [] {
      FlatLegal(cks[1..]);
    }
  }

  /** The whole directory. */
  ghost function Listing(cks: seq<Chunk>): (es: seq<Dirent>)
    requires WellChunked(cks)
    ensures AllLegal(es)
  {
    FlatLegal(cks);
    Flat(cks)
  }

  /** Index in the listing of the first entry of chunk j. */
  ghost function First(cks: seq<Chunk>, j: nat): nat
    requires j <= |cks|
  {
    |Flat(cks[..j])|
  }

  /** Number of bytes of text before entry i. */
  ghost function Bytes(cks: seq<Chunk>, i: nat): nat
    requires WellChunked(cks) && i <= |Listing(cks)|
  {
    |EncodeAll(Listing(cks)[..i])|
  }

  lemma FirstNext(cks: seq<Chunk>, j: nat)
    requires WellChunked(cks) && j < |cks|
    ensures First(cks, j + 1) == First(cks, j) + |cks[j].entries| <= |Listing(cks)|
    ensures Listing(cks)[First(cks, j)..First(cks, j + 1)] == cks[j].entries
    ensures j < |cks| - 1 ==> First(cks, j) < First(cks, j + 1)
    ensures j == |cks| - 1 ==> First(cks, j + 1) == |Listing(cks)|
  {
    FlatNext(cks, j);
    assert cks == cks[..j + 1] + cks[j + 1..];
    FlatConcat(cks[..j + 1], cks[j + 1..]);
    assert j == |cks| - 1 ==> cks[..j + 1] == cks;
  }

  lemma {:induction false} FirstMonotone(cks: seq<Chunk>, j: nat, k: nat)
    requires WellChunked(cks) && j <= k <= |cks|
    ensures First(cks, j) <= First(cks, k) <= |Listing(cks)|
    ensures j < k < |cks| ==> First(cks, j) < First(cks, k)
    decreases k
  {
    if k > 0 {
      FirstNext(cks, k - 1);
    }
    if j < k {
      FirstMonotone(cks, j, k - 1);
    } else if k > 0 {
      FirstMonotone(cks, k - 1, k - 1);
    }
  }

  lemma BytesStep(cks: seq<Chunk>, i: nat)
    requires WellChunked(cks) && i < |Listing(cks)|
    ensures Bytes(cks, i + 1) == Bytes(cks, i) + |Encode(Listing(cks)[i])| > Bytes(cks, i)
  {
    hide EncodeAll, Encode, Legal, WellChunked, Listing;
    EncodeAllAt(Listing(cks), i);
  }

  lemma {:induction false} BytesMonotone(cks: seq<Chunk>, i: nat, k: nat)
    requires WellChunked(cks) && i <= k <= |Listing(cks)|
    ensures Bytes(cks, i) <= Bytes(cks, k)
    ensures i < k ==> Bytes(cks, i) < Bytes(cks, k)
    decreases k
  {
    hide Bytes, WellChunked, Listing;
    if i < k {
      BytesStep(cks, k - 1);
      BytesMonotone(cks, i, k - 1);
    }
  }

  /** Byte offset of the first entry of chunk j. */
  ghost function Start(cks: seq<Chunk>, j: nat): nat
    requires WellChunked(cks) && j <= |cks|
  {
    FirstMonotone(cks, j, j);
    Bytes(cks, First(cks, j))
  }

  lemma SliceJoin<T>(s: seq<T>, f: nat, c: seq<T>, k: nat)
    requires f + |c| <= |s| && s[f..f + |c|] == c && k <= |c|
    ensures s[..f + k] == s[..f] + c[..k]
  {
    assert c[..k] == s[f..f + |c|][..k];
  }

  lemma LegalFront(es: seq<Dirent>, k: nat)
    requires AllLegal(es) && k <= |es|
    ensures AllLegal(es[..k])
  {
    hide Legal;
  }

  /** The text before entry f + k, when entries c stand at f. */
  lemma TextJoins(es: seq<Dirent>, f: nat, c: seq<Dirent>, k: nat)
    requires AllLegal(es) && AllLegal(c) && f + |c| <= |es| && es[f..f + |c|] == c && k <= |c|
    ensures AllLegal(es[..f + k]) && AllLegal(es[..f]) && AllLegal(c[..k])
    ensures |EncodeAll(es[..f + k])| == |EncodeAll(es[..f])| + |EncodeAll(c[..k])|
  {
    hide *;
    LegalFront(es, f);
    LegalFront(c, k);
    SliceJoin(es, f, c, k);
    EncodeAllConcat(es[..f], c[..k]);
  }

  lemma BytesIs(cks: seq<Chunk>, i: nat)
    requires WellChunked(cks) && i <= |Listing(cks)|
    ensures AllLegal(Listing(cks)[..i]) && Bytes(cks, i) == |EncodeAll(Listing(cks)[..i])|
  {
    hide WellChunked, Legal, Flat, EncodeAll;
  }

  lemma StartIs(cks: seq<Chunk>, j: nat)
    requires WellChunked(cks) && j <= |cks|
    ensures First(cks, j) <= |Listing(cks)| && Start(cks, j) == Bytes(cks, First(cks, j))
  {
    hide WellChunked, Bytes, First, Listing;
    FirstMonotone(cks, j, j);
  }

  lemma LegalChunk(cks: seq<Chunk>, j: nat)
    requires WellChunked(cks) && j < |cks|
    ensures AllLegal(cks[j].entries)
  {
    hide Legal;
  }

  /** Inside chunk j, entry k of the chunk stands at its own offset in the chunk. */
  lemma BytesInChunk(cks: seq<Chunk>, j: nat, k: nat)
    requires WellChunked(cks) && j < |cks| && k <= |cks[j].entries|
    ensures First(cks, j) + k <= |Listing(cks)| && AllLegal(cks[j].entries[..k])
    ensures Bytes(cks, First(cks, j) + k) == Start(cks, j) + |EncodeAll(cks[j].entries[..k])|
  {
    hide *;
    LegalChunk(cks, j);
    FirstNext(cks, j);
    StartIs(cks, j);
    BytesIs(cks, First(cks, j));
    BytesIs(cks, First(cks, j) + k);
    TextJoins(Listing(cks), First(cks, j), cks[j].entries, k);
  }

  lemma StartNext(cks: seq<Chunk>, j: nat)
    requires WellChunked(cks) && j < |cks|
    ensures Start(cks, j + 1) == Start(cks, j) + |EncodeAll(cks[j].entries)|
    ensures j < |cks| - 1 ==> Start(cks, j) < Start(cks, j + 1)
    ensures j == |cks| - 1 ==> Start(cks, j + 1) == Bytes(cks, |Listing(cks)|)
  {
    hide EncodeAll, Legal, Flat, Listing;
    FirstNext(cks, j);
    BytesInChunk(cks, j, |cks[j].entries|);
    assert cks[j].entries[..|cks[j].entries|] == cks[j].entries;
    BytesMonotone(cks, First(cks, j), First(cks, j + 1));
  }

  lemma {:induction false} StartMonotone(cks: seq<Chunk>, j: nat, k: nat)
    requires WellChunked(cks) && j <= k <= |cks|
    ensures Start(cks, j) <= Start(cks, k)
    ensures j < k < |cks| ==> Start(cks, j) < Start(cks, k)
    decreases k
  {
    hide Start, WellChunked;
    if j < k {
      StartNext(cks, k - 1);
      StartMonotone(cks, j, k - 1);
    }
  }

  /** An entry whose byte offset lies in chunk j is an entry of chunk j. */
  lemma EntryInChunk(cks: seq<Chunk>, j: nat, i: nat)
    requires WellChunked(cks) && j < |cks| && i <= |Listing(cks)|
    requires Start(cks, j) <= Bytes(cks, i) < Start(cks, j + 1)
    ensures First(cks, j) <= i < First(cks, j + 1) == First(cks, j) + |cks[j].entries|
    ensures Bytes(cks, i) - Start(cks, j) == |EncodeAll(cks[j].entries[..i - First(cks, j)])|
  {
    hide EncodeAll, Legal, First, Bytes, Listing, WellChunked;
    FirstNext(cks, j);
    FirstMonotone(cks, j, j + 1);
    if i < First(cks, j) {
      BytesMonotone(cks, i, First(cks, j));
    }
    if i >= First(cks, j + 1) {
      BytesMonotone(cks, First(cks, j + 1), i);
    }
    BytesInChunk(cks, j, i - First(cks, j));
  }
}
