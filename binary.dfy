/**
 * The binary dump of an index, as far as the writer gets: a word-to-count
 * header and the flattened posting lists are computed, then a 4-byte
 * unsigned little-endian length `meta` and `meta` header bytes are written.
 * The reader takes the length back from the first 4 bytes and slices the
 * header out after them.  The header itself is an encoded JSON text, which
 * the model treats as an opaque byte string.
 */
module Framing {
  import opened Results
  import opened OrderedMaps
  import opened InvertedIndexes

  newtype byte = x: int | 0 <= x < 256

  /** 256 to the power `k`: one more than the largest value `k` bytes hold. */
  function Pow256(k: nat): (p: nat)
    ensures p >= 1
  {
    if k == 0 then 1 else 256 * Pow256(k - 1)
  }

  /** The `k` little-endian bytes of `n`, its high bytes dropped. */
  function PackLE(n: nat, k: nat): (b: seq<byte>)
    ensures |b| == k
  {
    if k == 0 then [] else [(n % 256) as byte] + PackLE(n / 256, k - 1)
  }

  /** The number that little-endian bytes `b` encode. */
  function UnpackLE(b: seq<byte>): (n: nat)
    ensures n < Pow256(|b|)
  {
    if b == [] then 0 else b[0] as nat + 256 * UnpackLE(b[1..])
  }

  /** Reading back what was packed gives the number, when it fits. */
  lemma {:induction false} UnpackPackLE(n: nat, k: nat)
    requires n < Pow256(k)
    ensures UnpackLE(PackLE(n, k)) == n
  {
    if k > 0 {
      UnpackPackLE(n / 256, k - 1);
      assert PackLE(n, k)[1..] == PackLE(n / 256, k - 1);
    }
  }

  /** Packing what was read gives the bytes back: the encoding is one-to-one. */
  lemma {:induction false} PackUnpackLE(b: seq<byte>)
    ensures PackLE(UnpackLE(b), |b|) == b
  {
    if b != [] {
      var n := UnpackLE(b);
      PackUnpackLE(b[1..]);
      assert n % 256 == b[0] as nat && n / 256 == UnpackLE(b[1..]);
    }
  }

  /** `pack('I', n)`: the 4-byte unsigned integer, which must be below 2^32. */
  function PackU32(n: nat): (b: seq<byte>)
    requires n < 0x1_0000_0000
    ensures |b| == 4 && UnpackLE(b) == n
  {
    UnpackPackLE(n, 4);
    PackLE(n, 4)
  }

  /** `unpack('I', b)`: the 4-byte unsigned integer the bytes hold. */
  function UnpackU32(b: seq<byte>): (n: nat)
    requires |b| == 4
    ensures n < 0x1_0000_0000
    ensures PackU32(n) == b
  {
    PackUnpackLE(b);
    UnpackLE(b)
  }

  /** `pack(f'{n}s', s)`: exactly `n` bytes, `s` cut short or padded with zero bytes. */
  function PackBytes(n: nat, s: seq<byte>): (b: seq<byte>)
    ensures |b| == n
    ensures forall i :: 0 <= i < n && i < |s| ==> b[i] == s[i]
    ensures forall i :: |s| <= i < n ==> b[i] == 0
  {
    if n <= |s| then s[..n] else s + seq(n - |s|, _ => 0 as byte)
  }

  /** Python's `data[lo:hi]` for `0 <= lo`: both bounds are clamped to the length. */
  function Slice(data: seq<byte>, lo: nat, hi: nat): (s: seq<byte>)
    ensures |s| == if lo <= hi && lo <= |data| then (if hi <= |data| then hi else |data|) - lo else 0
    ensures |s| > 0 ==> lo + |s| <= |data| && s == data[lo..lo + |s|]
  {
    var h := if hi <= |data| then hi else |data|;
    if lo <= h then data[lo..h] else []
  }

  /** `pack('I', meta)` raises `struct.error` when the length does not fit in 4 bytes. */
  datatype FrameError = MetaOutOfRange

  /** `unpack` raises `struct.error` when it is given fewer bytes than the format needs. */
  datatype ReadError = PrefixTooShort | HeaderTooShort

  /**
   * The two writes of `struct_dump` that succeed: `pack('I', meta)` then
   * `pack(f'{meta}s', header)` with `meta == len(header)`.
   */
  function Frame(header: seq<byte>): (r: Result<seq<byte>, FrameError>)
    ensures r.Err? <==> |header| >= 0x1_0000_0000
    ensures r.Ok? ==> && |r.value| == 4 + |header|
                      && UnpackU32(r.value[..4]) == |header|
                      && r.value[4..] == header
  {
    if |header| >= 0x1_0000_0000 then Err(MetaOutOfRange)
    else
      var prefix := PackU32(|header|);
      var body := PackBytes(|header|, header);
      assert body == header;
      assert (prefix + body)[..4] == prefix;
      Ok(prefix + body)
  }

  /**
   * `load_from_binary` after the file is read: `meta` from the first 4 bytes,
   * then the `meta` bytes that follow.
   */
  function ReadHeader(data: seq<byte>): (r: Result<seq<byte>, ReadError>)
    ensures r == Err(PrefixTooShort) <==> |data| < 4
    ensures r == Err(HeaderTooShort) <==> |data| >= 4 && |data| < 4 + UnpackU32(data[..4])
    ensures r.Ok? ==> && |data| >= 4 + UnpackU32(data[..4])
                      && r.value == data[4..4 + UnpackU32(data[..4])]
  {
    var prefix := Slice(data, 0, 4);
    if |prefix| != 4 then Err(PrefixTooShort)
    else
      assert prefix == data[..4];
      var meta := UnpackU32(prefix);
      var body := Slice(data, 4, 4 + meta);
      if |body| != meta then Err(HeaderTooShort)
      else Ok(body)
  }

  /** Reading what was written gives the header back, whatever follows it in the file. */
  lemma FrameRoundTrip(header: seq<byte>, tail: seq<byte>)
    requires |header| < 0x1_0000_0000
    ensures Frame(header).Ok?
    ensures ReadHeader(Frame(header).value + tail) == Ok(header)
  {
    var data := Frame(header).value + tail;
    assert data[..4] == Frame(header).value[..4];
    assert data[4..4 + |header|] == header;
  }

  /** The sum of the counts of keys `ks`. */
  function Total(pairs: OrderedMap<string, int>, ks: seq<string>): int
    requires forall k :: k in ks ==> k in pairs.entries
  {
    if ks == [] then 0 else Total(pairs, ks[..|ks| - 1]) + pairs.entries[ks[|ks| - 1]]
  }

  /** `pairs` after the loop has visited the words `ks`. */
  function Counts(idx: Index, ks: seq<string>): OrderedMap<string, int>
    requires forall k :: k in ks ==> k in idx.entries
  {
    if ks == [] then Empty()
    else Put(Counts(idx, ks[..|ks| - 1]), ks[|ks| - 1], |idx.entries[ks[|ks| - 1]]|)
  }

  /** `documents_id` after the loop has visited the words `ks`: their lists, one after another. */
  function Postings(idx: Index, ks: seq<string>): seq<int>
    requires forall k :: k in ks ==> k in idx.entries
  {
    if ks == [] then [] else Postings(idx, ks[..|ks| - 1]) + idx.entries[ks[|ks| - 1]]
  }

  /** Over distinct words, `pairs` lists exactly those words in order, each with its list's length. */
  lemma {:induction false} CountsShape(idx: Index, ks: seq<string>)
    requires forall k :: k in ks ==> k in idx.entries
    requires Distinct(ks)
    ensures Counts(idx, ks).keys == ks
    ensures forall w :: w in Counts(idx, ks).entries <==> w in ks
    ensures forall w :: w in ks ==> Counts(idx, ks).entries[w] == |idx.entries[w]|
    decreases |ks|
  {
    if ks != [] {
      var init := ks[..|ks| - 1];
      var last := ks[|ks| - 1];
      assert ks == init + [last];
      assert forall k :: k in init ==> k in ks;
      DistinctInit(ks);
      CountsShape(idx, init);
      var c := Counts(idx, init);
      var r := Put(c, last, |idx.entries[last]|);
      assert Counts(idx, ks) == r;
      assert last !in c.entries;
      forall w | w in ks
        ensures w in r.entries && r.entries[w] == |idx.entries[w]|
      {
        if w != last {
          assert w in init;
        }
      }
    }
  }

  /** The flattened list is as long as the counts add up to. */
  lemma {:induction false} PostingsTotal(idx: Index, ks: seq<string>)
    requires forall k :: k in ks ==> k in idx.entries
    requires Distinct(ks)
    ensures forall k :: k in ks ==> k in Counts(idx, ks).entries
    ensures |Postings(idx, ks)| == Total(Counts(idx, ks), ks)
    decreases |ks|
  {
    CountsShape(idx, ks);
    if ks != [] {
      var init := ks[..|ks| - 1];
      assert forall k :: k in init ==> k in ks;
      PostingsTotal(idx, init);
      CountsShape(idx, init);
      TotalAgrees(Counts(idx, init), Counts(idx, ks), init);
    }
  }

  /** The total over `ks` reads only the counts of `ks`. */
  lemma {:induction false} TotalAgrees(a: OrderedMap<string, int>, b: OrderedMap<string, int>, ks: seq<string>)
    requires forall k :: k in ks ==> k in a.entries && k in b.entries && a.entries[k] == b.entries[k]
    ensures Total(a, ks) == Total(b, ks)
    decreases |ks|
  {
    if ks != [] {
      var init := ks[..|ks| - 1];
      assert forall k :: k in init ==> k in ks;
      TotalAgrees(a, b, init);
    }
  }

  /**
   * The loops of `struct_dump`: for each word in the index's order, record
   * its list's length in `pairs` and append its ids to `documents_id`.
   */
  method Flatten(idx: Index) returns (pairs: OrderedMap<string, int>, ids: seq<int>)
    requires Valid(idx)
    ensures pairs == Counts(idx, idx.keys) && ids == Postings(idx, idx.keys)
    ensures pairs.keys == idx.keys
    ensures forall w :: w in pairs.entries <==> w in idx.entries
    ensures forall w :: w in idx.entries ==> pairs.entries[w] == |idx.entries[w]|
    ensures |ids| == Total(pairs, pairs.keys)
  {
    pairs := Empty();
    ids := [];
    var i := 0;
    while i < |idx.keys|
      invariant 0 <= i <= |idx.keys|
      invariant pairs == Counts(idx, idx.keys[..i])
      invariant ids == Postings(idx, idx.keys[..i])
    {
      var word := idx.keys[i];
      var documents := idx.entries[word];
      assert idx.keys[..i + 1][..i] == idx.keys[..i];
      pairs := Put(pairs, word, |documents|);
      var j := 0;
      while j < |documents|
        invariant 0 <= j <= |documents|
        invariant ids == Postings(idx, idx.keys[..i]) + documents[..j]
      {
        ids := ids + [documents[j]];
        assert documents[..j + 1] == documents[..j] + [documents[j]];
        j := j + 1;
      }
      assert documents[..j] == documents;
      i := i + 1;
    }
    assert idx.keys[..i] == idx.keys;
    CountsShape(idx, idx.keys);
    PostingsTotal(idx, idx.keys);
  }

  /**
   * `struct_dump` up to the write that raises: the header is the encoding of
   * `pairs`, given here as `encode` (the JSON text as UTF-8 bytes), and the
   * bytes written are its frame.
   */
  method StructDump(idx: Index, encode: OrderedMap<string, int> -> seq<byte>) returns (r: Result<seq<byte>, FrameError>)
    requires Valid(idx)
    ensures r == Frame(encode(Counts(idx, idx.keys)))
  {
    var pairs, ids := Flatten(idx);
    var header := encode(pairs);
    r := Frame(header);
  }

  /** Whatever the header encoding, a dumped index's header reads back from the bytes written. */
  lemma DumpReadsBack(idx: Index, encode: OrderedMap<string, int> -> seq<byte>, tail: seq<byte>)
    requires Valid(idx)
    requires |encode(Counts(idx, idx.keys))| < 0x1_0000_0000
    ensures Frame(encode(Counts(idx, idx.keys))).Ok?
    ensures ReadHeader(Frame(encode(Counts(idx, idx.keys))).value + tail) == Ok(encode(Counts(idx, idx.keys)))
  {
    FrameRoundTrip(encode(Counts(idx, idx.keys)), tail);
  }
}
