/** Loose objects (`ObjectHeaders`, `Object`): the body of each object
    type, the envelope `<type> <length>\0<body>` an object is hashed and
    stored as, the `objects/<2 hex>/<38 hex>` place it is stored at, and
    reading an object back by its hash.  The object directory is a map from
    (directory, file name) to the file's decompressed contents; SHA-1 is a
    parameter. */
module ObjectStore {
  import opened Bytes
  import opened Results
  import Hex
  import Decimal
  import Cli
  import HeaderCodec
  import TreeCodec

  /** The parsed body of an object. */
  datatype ObjectHeaders =
    | CommitHeaders(h: HeaderCodec.Headers)
    | TreeHeaders(entries: seq<TreeCodec.TreeNode>)
    | TagHeaders(h: HeaderCodec.Headers)
    | BlobHeaders(data: Bytes)

  /** An object: its body and the type its envelope names. */
  datatype Object = Object(header: ObjectHeaders, kind: Cli.ObjectType)

  // ---------------------------------------------------------------------
  // Bodies

  /** The lookups `serialize` unwraps succeed: every key in `order` has
      values, every tree entry's hash decodes. */
  predicate Serializable(o: ObjectHeaders)
  {
    match o
    case CommitHeaders(h) => HeaderCodec.KeysPresent(h.fields, h.order)
    case TagHeaders(h) => HeaderCodec.KeysPresent(h.fields, h.order)
    case TreeHeaders(es) => TreeCodec.HashesDecode(es)
    case BlobHeaders(_) => true
  }

  /** The bytes `serialize` writes for a body. */
  function Body(o: ObjectHeaders): Bytes
    requires Serializable(o)
  {
    match o
    case CommitHeaders(h) => HeaderCodec.HeaderBytes(h)
    case TagHeaders(h) => HeaderCodec.HeaderBytes(h)
    case TreeHeaders(es) => TreeCodec.TreeBytes(es)
    case BlobHeaders(data) => data
  }

  /** `ObjectHeaders::serialize`. */
  method Serialize(o: ObjectHeaders) returns (data: Bytes)
    requires Serializable(o)
    ensures data == Body(o)
  {
    match o
    case BlobHeaders(d) =>
      data := d;
    case CommitHeaders(h) =>
      data := HeaderCodec.Serialize(h);
    case TagHeaders(h) =>
      data := HeaderCodec.Serialize(h);
    case TreeHeaders(es) =>
      data := TreeCodec.Serialize(es);
  }

  /** What `deserialize` makes of a body of type `t`: a blob is its bytes,
      a tree its sorted entries, and a commit or a tag its headers, in both
      cases as the Commit variant. */
  function Decode(t: Cli.ObjectType, data: Bytes): (r: Result<ObjectHeaders>)
    ensures t == Cli.Blob <==> (r.Ok? && r.value.BlobHeaders?)
    ensures r.Ok? && t == Cli.Blob ==> r.value.data == data
    ensures r.Ok? && t == Cli.Tree ==> r.value.TreeHeaders? && TreeCodec.Sorted(r.value.entries)
    ensures r.Ok? && (t == Cli.Commit || t == Cli.Tag) ==> r.value.CommitHeaders?
    ensures r.Ok? ==> !r.value.TagHeaders?
  {
    match t
    case Blob => Ok(BlobHeaders(data))
    case Commit =>
      (match HeaderCodec.Parse(data)
       case Ok(h) => Ok(CommitHeaders(h))
       case Err(e) => Err(e))
    case Tag =>
      (match HeaderCodec.Parse(data)
       case Ok(h) => Ok(CommitHeaders(h))
       case Err(e) => Err(e))
    case Tree =>
      (match TreeCodec.Parse(data)
       case Ok(es) => Ok(TreeHeaders(es))
       case Err(e) => Err(e))
  }

  /** `ObjectHeaders::deserialize`. */
  method Deserialize(t: Cli.ObjectType, data: Bytes) returns (r: Result<ObjectHeaders>)
    ensures r == Decode(t, data)
  {
    match t
    case Blob =>
      r := Ok(BlobHeaders(data));
    case Commit =>
      var h := HeaderCodec.Deserialize(data);
      r := if h.Ok? then Ok(CommitHeaders(h.value)) else Err(h.error);
    case Tag =>
      var h := HeaderCodec.Deserialize(data);
      r := if h.Ok? then Ok(CommitHeaders(h.value)) else Err(h.error);
    case Tree =>
      var es := TreeCodec.FromData(data);
      r := if es.Ok? then Ok(TreeHeaders(es.value)) else Err(es.error);
  }

  /** A tag body reads back exactly as a commit body does. */
  lemma TagReadsAsCommit(data: Bytes)
    ensures Decode(Cli.Tag, data) == Decode(Cli.Commit, data)
  {
  }

  /** The type a body is written under. */
  predicate Consistent(o: Object)
  {
    match o.header
    case CommitHeaders(_) => o.kind == Cli.Commit || o.kind == Cli.Tag
    case TagHeaders(_) => o.kind == Cli.Tag
    case TreeHeaders(_) => o.kind == Cli.Tree
    case BlobHeaders(_) => o.kind == Cli.Blob
  }

  /** Bodies that read back as themselves (a tag body as the Commit
      variant). */
  predicate Readable(o: ObjectHeaders)
  {
    match o
    case CommitHeaders(h) => HeaderCodec.WellFormed(h)
    case TagHeaders(h) => HeaderCodec.WellFormed(h)
    case TreeHeaders(es) =>
      TreeCodec.Sorted(es) && forall i :: 0 <= i < |es| ==> TreeCodec.WellFormed(es[i])
    case BlobHeaders(_) => true
  }

  /** What reading a body back gives: the Tag variant comes back as the
      Commit variant with the same headers. */
  function AsRead(o: ObjectHeaders): ObjectHeaders
  {
    if o.TagHeaders? then CommitHeaders(o.h) else o
  }

  /** `deserialize(serialize(o))` gives the body back, a tag's headers in
      the Commit variant. */
  lemma BodyRoundTrip(o: Object)
    requires Consistent(o) && Readable(o.header)
    ensures Serializable(o.header)
    ensures Decode(o.kind, Body(o.header)) == Ok(AsRead(o.header))
  {
    match o.header
    case CommitHeaders(h) =>
      HeaderCodec.HeadersRoundTrip(h);
    case TagHeaders(h) =>
      HeaderCodec.HeadersRoundTrip(h);
    case TreeHeaders(es) =>
      TreeCodec.TreeRoundTrip(es);
    case BlobHeaders(_) =>
  }

  // ---------------------------------------------------------------------
  // Envelope

  /** `<type> <decimal length>\0<body>`, as `calculate_hash` and
      `write_to_repo` build it; the reader's split takes it apart into the
      type name, the length digits and the body again. */
  function Envelope(t: Cli.ObjectType, body: Bytes): (r: Bytes)
    ensures SplitEnvelope(r) == (Cli.TypeName(t), Decimal.Show(|body|), body)
  {
    var name, len := Cli.TypeName(t), Decimal.Show(|body|);
    NulFree(len);
    SplitsAt(name, len, body);
    name + [SP] + len + [NUL] + body
  }

  /** Type name, space, length digits, NUL and body split back apart. */
  lemma SplitsAt(name: Bytes, len: Bytes, body: Bytes)
    requires SP !in name && NUL !in len
    ensures SplitEnvelope(name + [SP] + len + [NUL] + body) == (name, len, body)
  {
    assert name + [SP] + len + [NUL] + body == name + [SP] + (len + [NUL] + body);
    TakeUntilSplits(name, SP, len + [NUL] + body);
    TakeUntilSplits(len, NUL, body);
  }

  /** The two draining loops of `read_from_sha`: the header up to the first
      space, the length up to the next NUL, and the rest as content (a
      missing delimiter leaves what follows empty). */
  function SplitEnvelope(raw: Bytes): (r: (Bytes, Bytes, Bytes))
    ensures SP !in r.0 && NUL !in r.1
    ensures SP in raw && NUL in TakeUntil(raw, SP).1 ==> raw == r.0 + [SP] + r.1 + [NUL] + r.2
    ensures SP !in raw ==> r == (raw, [], [])
  {
    var h := TakeUntil(raw, SP);
    var l := TakeUntil(h.1, NUL);
    (h.0, l.0, l.1)
  }

  /** The envelope check of `read_from_sha`: the length must parse (else the
      source panics) and equal the content's length (else an error is
      returned), and the header must be a type name (else the source
      panics). */
  function OpenEnvelope(raw: Bytes): (r: Result<(Cli.ObjectType, Bytes)>)
    ensures r.Ok? ==>
      var (header, length, content) := SplitEnvelope(raw);
      header == Cli.TypeName(r.value.0) && content == r.value.1
      && Decimal.ParseUsize(length) == Some(|content|)
    ensures r == Err(LengthMismatch) <==>
      var (_, length, content) := SplitEnvelope(raw);
      Decimal.ParseUsize(length).Some? && Decimal.ParseUsize(length).value != |content|
    ensures Decimal.ParseUsize(SplitEnvelope(raw).1).None? ==> r == Err(Panic(BadLengthField))
    ensures
      var (header, length, content) := SplitEnvelope(raw);
      Decimal.ParseUsize(length) == Some(|content|) ==>
        (r.Ok? <==> header in Cli.Names()) && (r.Err? ==> r.error == Panic(UnknownTypeName))
  {
    var (header, length, content) := SplitEnvelope(raw);
    match Decimal.ParseUsize(length)
    case None => Err(Panic(BadLengthField))
    case Some(n) =>
      if n != |content| then Err(LengthMismatch)
      else
        match Cli.FromName(header)
        case Ok(t) => Ok((t, content))
        case Err(e) => Err(e)
  }

  lemma SliceSnoc(s: Bytes, lo: nat, hi: nat)
    requires lo <= hi < |s|
    ensures s[lo..hi + 1] == s[lo..hi] + [s[hi]]
  {
  }

  /** Taking bytes up to the delimiter at `k`. */
  lemma TakeUntilAt(s: Bytes, d: Byte, k: nat)
    requires k < |s| && s[k] == d
    requires forall i :: 0 <= i < k ==> s[i] != d
    ensures TakeUntil(s, d) == (s[..k], s[k + 1..])
  {
    assert s == s[..k] + [d] + s[k + 1..];
    TakeUntilSplits(s[..k], d, s[k + 1..]);
  }

  /** What a draining loop leaves: the bytes before the first `d` from
      `from` on, and the input after that `d` (nothing when there is none). */
  lemma Drained(raw: Bytes, from: nat, d: Byte, taken: Bytes, next: nat)
    requires from + |taken| <= |raw| && taken == raw[from..from + |taken|]
    requires forall i :: from <= i < from + |taken| ==> raw[i] != d
    requires from + |taken| < |raw| ==> raw[from + |taken|] == d && next == from + |taken| + 1
    requires from + |taken| == |raw| ==> next == |raw|
    ensures TakeUntil(raw[from..], d) == (taken, raw[next..])
  {
    var s, k := raw[from..], |taken|;
    assert taken == s[..k];
    forall i | 0 <= i < k ensures s[i] != d {
      assert s[i] == raw[from + i];
    }
    if from + k < |raw| {
      assert s[k + 1..] == raw[next..];
      TakeUntilAt(s, d, k);
    } else {
      assert s[..k] == s;
      assert d !in s;
      assert raw[next..] == [];
    }
  }

  /** One `while iter.peek().is_some()` loop of `read_from_sha`: pushes
      the bytes from `from` on that precede the first `d`, then consumes
      that `d` if there is one. */
  method DrainUntil(raw: Bytes, from: nat, d: Byte) returns (taken: Bytes, next: nat)
    requires from <= |raw|
    ensures from + |taken| <= |raw| && taken == raw[from..from + |taken|]
    ensures forall i :: from <= i < from + |taken| ==> raw[i] != d
    ensures from + |taken| < |raw| ==> raw[from + |taken|] == d && next == from + |taken| + 1
    ensures from + |taken| == |raw| ==> next == |raw|
  {
    taken := [];
    var stop := from;
    while stop < |raw| && raw[stop] != d
      invariant from <= stop <= |raw|
      invariant taken == raw[from..stop]
      invariant forall i :: from <= i < stop ==> raw[i] != d
    {
      SliceSnoc(raw, from, stop);
      taken := taken + [raw[stop]];
      stop := stop + 1;
    }
    next := if stop < |raw| then stop + 1 else stop;
  }

  /** The envelope split of `read_from_sha`. */
  method ReadEnvelope(raw: Bytes) returns (header: Bytes, length: Bytes, content: Bytes)
    ensures (header, length, content) == SplitEnvelope(raw)
  {
    var i, j;
    header, i := DrainUntil(raw, 0, SP);
    Drained(raw, 0, SP, header, i);
    assert raw[0..] == raw;
    length, j := DrainUntil(raw, i, NUL);
    Drained(raw, i, NUL, length, j);
    content := raw[j..];
  }

  /** Reading an envelope gives back the type and the body it was built
      from. */
  lemma EnvelopeRoundTrip(t: Cli.ObjectType, body: Bytes)
    requires |body| <= Decimal.USIZE_MAX
    ensures OpenEnvelope(Envelope(t, body)) == Ok((t, body))
  {
    Decimal.ParseShow(|body|);
    Cli.NameRoundTrip(t);
  }

  /** A decimal numeral holds no NUL. */
  lemma NulFree(s: Bytes)
    requires Decimal.AllDigits(s)
    ensures NUL !in s
  {
    forall i | 0 <= i < |s| ensures s[i] != NUL {
      assert Decimal.IsDigit(s[i]);
    }
  }

  /** A declared length other than the content's is rejected with an error,
      however the two differ: content is never cut or padded to fit. */
  lemma LengthMismatchRejected(t: Cli.ObjectType, n: nat, body: Bytes)
    requires n <= Decimal.USIZE_MAX && n != |body|
    ensures OpenEnvelope(Cli.TypeName(t) + [SP] + Decimal.Show(n) + [NUL] + body) == Err(LengthMismatch)
  {
    NulFree(Decimal.Show(n));
    SplitsAt(Cli.TypeName(t), Decimal.Show(n), body);
    Decimal.ParseShow(n);
  }

  /** Different objects have different envelopes. */
  lemma EnvelopeInjective(t: Cli.ObjectType, b: Bytes, u: Cli.ObjectType, c: Bytes)
    requires |b| <= Decimal.USIZE_MAX && |c| <= Decimal.USIZE_MAX
    requires Envelope(t, b) == Envelope(u, c)
    ensures t == u && b == c
  {
    EnvelopeRoundTrip(t, b);
    EnvelopeRoundTrip(u, c);
  }

  // ---------------------------------------------------------------------
  // Object names and the object directory

  /** A SHA-1 digest. */
  type Digest = d: Bytes | |d| == 20
    witness [0, 0, 0, 0, 0, 0, 0, 0, 0, 0, 0, 0, 0, 0, 0, 0, 0, 0, 0, 0]

  /** `calculate_hash`: the lowercase hex of the SHA-1 of the envelope. */
  function ObjectHash(o: Object, sha1: Bytes -> Digest): (r: Bytes)
    requires Serializable(o.header)
    ensures |r| == 40 && Hex.IsLowerHex(r)
    ensures Hex.Decode(r) == Some(sha1(Envelope(o.kind, Body(o.header))))
  {
    var d := sha1(Envelope(o.kind, Body(o.header)));
    Hex.DecodeEncode(d);
    Hex.Encode(d)
  }

  /** `hash[..2]` and `hash[2..]`: the directory under `objects` and the
      file name.  Slicing a hash shorter than two characters panics. */
  function ShardPath(hash: Bytes): (r: Result<(Bytes, Bytes)>)
    ensures r.Ok? <==> |hash| >= 2
    ensures r.Err? ==> r.error == Panic(ShortHash)
    ensures r.Ok? ==> |r.value.0| == 2 && r.value.0 + r.value.1 == hash
    ensures r.Ok? ==> |r.value.1| == |hash| - 2
  {
    if |hash| < 2 then Err(Panic(ShortHash)) else Ok((hash[..2], hash[2..]))
  }

  /** The object directory: (directory, file name) to the decompressed file
      contents. */
  type Store = map<(Bytes, Bytes), Bytes>

  /** Every stored file sits where its contents' hash says. */
  predicate Addressed(store: Store, sha1: Bytes -> Digest)
  {
    forall p :: p in store ==> p.0 + p.1 == Hex.Encode(sha1(store[p]))
  }

  /** `write_to_repo`: stores the envelope under its hash and returns the
      hash. */
  function Write(store: Store, o: Object, sha1: Bytes -> Digest): (r: (Store, Bytes))
    requires Serializable(o.header)
    ensures r.1 == ObjectHash(o, sha1)
    ensures |r.1| == 40
    ensures ShardPath(r.1).Ok? && r.0 == store[ShardPath(r.1).value := Envelope(o.kind, Body(o.header))]
  {
    var hash := ObjectHash(o, sha1);
    (store[(hash[..2], hash[2..]) := Envelope(o.kind, Body(o.header))], hash)
  }

  /** Writing keeps every file where its hash says. */
  lemma WriteAddressed(store: Store, o: Object, sha1: Bytes -> Digest)
    requires Serializable(o.header)
    requires Addressed(store, sha1)
    ensures Addressed(Write(store, o, sha1).0, sha1)
  {
    var hash := ObjectHash(o, sha1);
    var s := Write(store, o, sha1).0;
    forall p | p in s ensures p.0 + p.1 == Hex.Encode(sha1(s[p])) {
      if p == (hash[..2], hash[2..]) {
        assert hash[..2] + hash[2..] == hash;
      }
    }
  }

  /** `Object::new`: the body read as the given type. */
  function NewObject(t: Cli.ObjectType, data: Bytes): (r: Result<Object>)
    ensures r.Ok? <==> Decode(t, data).Ok?
    ensures r.Ok? ==> r.value == Object(Decode(t, data).value, t)
  {
    match Decode(t, data)
    case Ok(header) => Ok(Object(header, t))
    case Err(e) => Err(e)
  }

  /** `read_from_sha`: locate the file, check its envelope, read the body. */
  function ReadObject(store: Store, hash: Bytes): (r: Result<Object>)
    ensures |hash| < 2 ==> r == Err(Panic(ShortHash))
    ensures |hash| >= 2 && (hash[..2], hash[2..]) !in store ==> r == Err(NotFound)
    ensures r.Ok? ==>
      |hash| >= 2 && (hash[..2], hash[2..]) in store
      && OpenEnvelope(store[(hash[..2], hash[2..])]).Ok?
      && r.value.kind == OpenEnvelope(store[(hash[..2], hash[2..])]).value.0
  {
    match ShardPath(hash)
    case Err(e) => Err(e)
    case Ok(p) =>
      if p !in store then Err(NotFound)
      else
        match OpenEnvelope(store[p])
        case Err(e) => Err(e)
        case Ok(tb) => NewObject(tb.0, tb.1)
  }

  /** `read_from_sha` as the source runs it: the shard path, the draining
      loops, the length check, the type name, then `Object::new`. */
  method ReadFromSha(store: Store, hash: Bytes) returns (r: Result<Object>)
    ensures r == ReadObject(store, hash)
  {
    if |hash| < 2 {
      return Err(Panic(ShortHash));
    }
    var directory, filename := hash[..2], hash[2..];
    if (directory, filename) !in store {
      return Err(NotFound);
    }
    var raw := store[(directory, filename)];
    var header, length, content := ReadEnvelope(raw);
    var n := Decimal.ParseUsize(length);
    if n.None? {
      return Err(Panic(BadLengthField));
    }
    if n.value != |content| {
      return Err(LengthMismatch);
    }
    var t := Cli.FromName(header);
    if t.Err? {
      return Err(t.error);
    }
    var body := Deserialize(t.value, content);
    r := if body.Ok? then Ok(Object(body.value, t.value)) else Err(body.error);
  }

  /** Reading an object by the hash its write returned gives the object
      back (a tag's headers in the Commit variant). */
  lemma ReadAfterWrite(store: Store, o: Object, sha1: Bytes -> Digest)
    requires Consistent(o) && Readable(o.header)
    requires BodyFits(o)
    ensures Serializable(o.header)
    ensures ReadObject(Write(store, o, sha1).0, Write(store, o, sha1).1) == Ok(Object(AsRead(o.header), o.kind))
  {
    BodyRoundTrip(o);
    EnvelopeRoundTrip(o.kind, Body(o.header));
  }

  /** The body's length fits the envelope's `usize` length field. */
  predicate BodyFits(o: Object)
  {
    Serializable(o.header) && |Body(o.header)| <= Decimal.USIZE_MAX
  }
}
