/** Tree objects: the entry kinds, entry construction with mode padding, the
    parser of a tree body (`TreeObject::from_data`) with its sort, and the
    tree arm of the serializer. */
module TreeCodec {
  import opened Bytes
  import opened Results
  import Hex
  import Lex
  import Cli

  datatype TreeNodeType = Blob | Commit | Tree

  /** The mode prefixes that select each kind. */
  function Prefixes(k: TreeNodeType): set<Bytes>
  {
    match k
    case Tree => {Ascii("04")}
    case Blob => {Ascii("10"), Ascii("12")}
    case Commit => {Ascii("16")}
  }

  function KnownPrefixes(): set<Bytes>
  {
    Prefixes(Tree) + Prefixes(Blob) + Prefixes(Commit)
  }

  /** `TreeNodeType::from_string`: the kind is chosen by the first two bytes
      of the mode; a mode shorter than two bytes panics on the slice, an
      unknown prefix is an error. */
  function FromMode(mode: Bytes): (r: Result<TreeNodeType>)
    ensures |mode| < 2 ==> r == Err(Panic(ShortMode))
    ensures |mode| >= 2 ==> (r.Ok? <==> mode[..2] in KnownPrefixes())
    ensures |mode| >= 2 && r.Err? ==> r.error == UnknownMode
    ensures r.Ok? ==> mode[..2] in Prefixes(r.value)
  {
    if |mode| < 2 then Err(Panic(ShortMode))
    else
      var p := mode[..2];
      if p == Ascii("04") then Ok(Tree)
      else if p == Ascii("10") || p == Ascii("12") then Ok(Blob)
      else if p == Ascii("16") then Ok(Commit)
      else Err(UnknownMode)
  }

  /** Each prefix belongs to one kind only, so the kind is a function of the
      mode. */
  lemma PrefixesDisjoint(k: TreeNodeType, j: TreeNodeType, p: Bytes)
    requires p in Prefixes(k) && p in Prefixes(j)
    ensures k == j
  {
    var t, b1, b2, c := Ascii("04"), Ascii("10"), Ascii("12"), Ascii("16");
    assert t[0] != b1[0] && t[0] != b2[0] && t[0] != c[0];
    assert b1[1] != c[1] && b2[1] != c[1];
  }

  /** The type of object an entry of each kind points at. */
  function Target(k: TreeNodeType): Cli.ObjectType
  {
    match k
    case Blob => Cli.Blob
    case Commit => Cli.Commit
    case Tree => Cli.Tree
  }

  /** `Display for TreeNodeType`: the name of the object type the entry points
      at. */
  function KindName(k: TreeNodeType): (r: Bytes)
    ensures r == Cli.TypeName(Target(k))
  {
    match k
    case Blob => Ascii("blob")
    case Commit => Ascii("commit")
    case Tree => Ascii("tree")
  }

  /** Distinct kinds display differently. */
  lemma KindNameInjective(k: TreeNodeType, j: TreeNodeType)
    requires KindName(k) == KindName(j)
    ensures k == j
  {
    Cli.NameInjective(Target(k), Target(j));
  }

  const ZERO: Byte := 0x30
  const BACKSLASH: Byte := 0x5C

  /** The mode as `TreeNode::new` stores it: a mode shorter than six bytes
      (a directory's "40000") gets exactly one leading '0'; a longer one is
      kept as it is. */
  function PadMode(mode: Bytes): (r: Bytes)
    ensures |r| == if |mode| < 6 then |mode| + 1 else |mode|
    ensures r[|r| - |mode|..] == mode
    ensures |r| > |mode| ==> r[0] == ZERO
  {
    if |mode| < 6 then [ZERO] + mode else mode
  }

  datatype TreeNode = TreeNode(mode: Bytes, path: Bytes, hash: Bytes, kind: TreeNodeType)

  /** `TreeNode::new`: pads the mode and takes the kind from the padded
      mode; fails exactly when the kind cannot be determined. */
  function NewNode(mode: Bytes, path: Bytes, hash: Bytes): (r: Result<TreeNode>)
    ensures r.Ok? <==> FromMode(PadMode(mode)).Ok?
    ensures r.Err? ==> r.error == FromMode(PadMode(mode)).error
    ensures r.Ok? ==> r.value.mode == PadMode(mode) && r.value.path == path && r.value.hash == hash
    ensures r.Ok? ==> FromMode(r.value.mode) == Ok(r.value.kind)
  {
    var padded := PadMode(mode);
    match FromMode(padded)
    case Ok(k) => Ok(TreeNode(padded, path, hash, k))
    case Err(e) => Err(e)
  }

  /** What every parsed entry satisfies: its kind agrees with its mode, the
      mode holds no space, the path no NUL, and the hash is the hex text of
      at most 20 bytes. */
  predicate Parsed(e: TreeNode)
  {
    FromMode(e.mode) == Ok(e.kind) && SP !in e.mode && NUL !in e.path
    && |e.hash| <= 40 && Hex.Decode(e.hash).Some?
  }

  /** One record of `from_data`'s scan: the mode runs to the first space,
      the path to the next NUL (both delimiters consumed), and the hash is the
      hex text of the next (at most) 20 bytes; also returns what is left. */
  function ScanRecord(data: Bytes): (r: (Result<TreeNode>, Bytes))
    requires data != []
    ensures |r.1| < |data|
    ensures r.0.Ok? ==> Parsed(r.0.value)
  {
    var m := TakeUntil(data, SP);
    var p := TakeUntil(m.1, NUL);
    var n := if |p.1| < 20 then |p.1| else 20;
    Hex.DecodeEncode(p.1[..n]);
    (NewNode(m.0, p.0, Hex.Encode(p.1[..n])), p.1[n..])
  }

  /** The record scan of `from_data`: one entry per record, failing at the
      first record whose kind cannot be determined. */
  function ParseRecords(data: Bytes): (r: Result<seq<TreeNode>>)
    ensures r.Ok? ==> forall i :: 0 <= i < |r.value| ==> Parsed(r.value[i])
    ensures r.Ok? ==> |r.value| <= |data|
    decreases |data|
  {
    if data == [] then Ok([])
    else
      var (node, rest) := ScanRecord(data);
      match node
      case Err(e) => Err(e)
      case Ok(n) =>
        match ParseRecords(rest)
        case Err(e) => Err(e)
        case Ok(tail) =>
          ConsParsed(n, tail);
          Ok([n] + tail)
  }

  lemma ConsParsed(n: TreeNode, tail: seq<TreeNode>)
    requires Parsed(n)
    requires forall i :: 0 <= i < |tail| ==> Parsed(tail[i])
    ensures forall i :: 0 <= i < |[n] + tail| ==> Parsed(([n] + tail)[i])
  {
    forall i | 0 <= i < |[n] + tail| ensures Parsed(([n] + tail)[i]) {
      if i > 0 { assert ([n] + tail)[i] == tail[i - 1]; }
    }
  }

  /** The sort key of `from_data`'s comparator: a Tree entry's path with a
      backslash appended, any other entry's path. */
  function SortKey(e: TreeNode): Bytes
  {
    if e.kind == Tree then e.path + [BACKSLASH] else e.path
  }

  /** Each entry's key is at most the next one's. */
  predicate Sorted(es: seq<TreeNode>)
  {
    forall i :: 0 <= i < |es| - 1 ==> Lex.Le(SortKey(es[i]), SortKey(es[i + 1]))
  }

  /** The entries whose key is `k`, in their order. */
  function WithKey(es: seq<TreeNode>, k: Bytes): seq<TreeNode>
  {
    if es == [] then []
    else (if SortKey(es[0]) == k then [es[0]] else []) + WithKey(es[1..], k)
  }

  /** Inserts `e` before the first entry whose key is not below its own. */
  function Insert(e: TreeNode, es: seq<TreeNode>): seq<TreeNode>
  {
    if es == [] || Lex.Le(SortKey(e), SortKey(es[0])) then [e] + es
    else [es[0]] + Insert(e, es[1..])
  }

  /** `sort_by` with that comparator, a stable sort; written here as an
      insertion sort (`StableSortUnique` shows any stable sort gives the same
      result).  The result is an ascending arrangement of the same
      entries. */
  function SortEntries(es: seq<TreeNode>): (r: seq<TreeNode>)
    ensures Sorted(r)
    ensures multiset(r) == multiset(es)
  {
    if es == [] then []
    else
      var t := SortEntries(es[1..]);
      InsertSorted(es[0], t);
      assert es == [es[0]] + es[1..];
      Insert(es[0], t)
  }

  /** Insertion adds the entry and keeps an ascending arrangement
      ascending. */
  lemma {:induction false} InsertSorted(e: TreeNode, es: seq<TreeNode>)
    ensures multiset(Insert(e, es)) == multiset(es) + multiset{e}
    ensures Insert(e, es) != [] && (Insert(e, es)[0] == e || (es != [] && Insert(e, es)[0] == es[0]))
    ensures Sorted(es) ==> Sorted(Insert(e, es))
  {
    if es == [] || Lex.Le(SortKey(e), SortKey(es[0])) {
      SortedCons(e, es);
    } else {
      var t := Insert(e, es[1..]);
      InsertSorted(e, es[1..]);
      InsertStep(e, es, t);
    }
  }

  /** Putting the first entry in front of `e` inserted into the rest. */
  lemma InsertStep(e: TreeNode, es: seq<TreeNode>, t: seq<TreeNode>)
    requires es != [] && !Lex.Le(SortKey(e), SortKey(es[0]))
    requires t != [] && (t[0] == e || (es[1..] != [] && t[0] == es[1..][0]))
    requires Sorted(es[1..]) ==> Sorted(t)
    requires multiset(t) == multiset(es[1..]) + multiset{e}
    ensures multiset([es[0]] + t) == multiset(es) + multiset{e}
    ensures Sorted(es) ==> Sorted([es[0]] + t)
  {
    assert es == [es[0]] + es[1..];
    if Sorted(es) {
      SortedTail(es);
      Lex.LeTotal(SortKey(e), SortKey(es[0]));
      SortedCons(es[0], t);
    }
  }

  /** An entry not above the first of an ascending arrangement can go in
      front of it. */
  lemma SortedCons(x: TreeNode, tail: seq<TreeNode>)
    requires tail != [] ==> Lex.Le(SortKey(x), SortKey(tail[0]))
    ensures Sorted(tail) ==> Sorted([x] + tail)
  {
    if Sorted(tail) {
      forall i | 0 <= i < |tail| ensures Lex.Le(SortKey(([x] + tail)[i]), SortKey(([x] + tail)[i + 1])) {
        if i > 0 {
          assert ([x] + tail)[i] == tail[i - 1];
        }
      }
    }
  }

  lemma WithKeyCons(x: TreeNode, t: seq<TreeNode>, k: Bytes)
    ensures WithKey([x] + t, k) == (if SortKey(x) == k then [x] else []) + WithKey(t, k)
  {
    assert ([x] + t)[1..] == t;
  }

  /** Inserting an entry adds it to its own key's entries, in front. */
  lemma {:induction false} InsertWithKey(e: TreeNode, es: seq<TreeNode>, k: Bytes)
    ensures WithKey(Insert(e, es), k) == (if SortKey(e) == k then [e] else []) + WithKey(es, k)
  {
    if es == [] || Lex.Le(SortKey(e), SortKey(es[0])) {
      WithKeyCons(e, es, k);
    } else {
      var t := Insert(e, es[1..]);
      assert Insert(e, es) == [es[0]] + t;
      InsertWithKey(e, es[1..], k);
      WithKeyCons(es[0], t, k);
      WithKeyCons(es[0], es[1..], k);
      assert es == [es[0]] + es[1..];
      Lex.LeRefl(SortKey(e));
    }
  }

  /** The sort is stable: entries with equal keys keep their input order. */
  lemma {:induction false} SortStable(es: seq<TreeNode>, k: Bytes)
    ensures WithKey(SortEntries(es), k) == WithKey(es, k)
  {
    if es != [] {
      SortStable(es[1..], k);
      InsertWithKey(es[0], SortEntries(es[1..]), k);
    }
  }

  /** Sorting entries that are already in order changes nothing. */
  lemma {:induction false} SortIdentity(es: seq<TreeNode>)
    requires Sorted(es)
    ensures SortEntries(es) == es
  {
    if es != [] {
      assert Sorted(es[1..]) by {
        forall i | 0 <= i < |es[1..]| - 1 ensures Lex.Le(SortKey(es[1..][i]), SortKey(es[1..][i + 1])) {
          assert es[1..][i] == es[i + 1] && es[1..][i + 1] == es[i + 2];
        }
      }
      SortIdentity(es[1..]);
      assert es == [es[0]] + es[1..];
    }
  }

  lemma {:induction false} SortedFirstLeast(es: seq<TreeNode>, j: nat)
    requires Sorted(es) && j < |es|
    ensures Lex.Le(SortKey(es[0]), SortKey(es[j]))
  {
    if j == 0 {
      Lex.LeRefl(SortKey(es[0]));
    } else {
      SortedFirstLeast(es, j - 1);
      Lex.LeTrans(SortKey(es[0]), SortKey(es[j - 1]), SortKey(es[j]));
    }
  }

  lemma WithKeyHead(es: seq<TreeNode>)
    ensures es != [] ==> WithKey(es, SortKey(es[0])) != []
  {
  }

  lemma {:induction false} WithKeyMember(es: seq<TreeNode>, k: Bytes, j: nat)
    requires j < |es| && SortKey(es[j]) == k
    ensures WithKey(es, k) != []
  {
    if j > 0 { WithKeyMember(es[1..], k, j - 1); }
  }

  lemma {:induction false} WithKeyOnly(es: seq<TreeNode>, k: Bytes, x: TreeNode)
    requires x in WithKey(es, k)
    ensures x in es && SortKey(x) == k
  {
    if es != [] {
      if x != es[0] || SortKey(es[0]) != k { WithKeyOnly(es[1..], k, x); }
    }
  }

  lemma SortedTail(t: seq<TreeNode>)
    requires Sorted(t) && t != []
    ensures Sorted(t[1..])
  {
    forall i | 0 <= i < |t[1..]| - 1 ensures Lex.Le(SortKey(t[1..][i]), SortKey(t[1..][i + 1])) {
      assert t[1..][i] == t[i + 1] && t[1..][i + 1] == t[i + 2];
    }
  }

  /** Arrangements that agree on every key's entries are empty together. */
  lemma AgreeNonEmpty(t: seq<TreeNode>, u: seq<TreeNode>)
    requires t != []
    requires forall k :: WithKey(t, k) == WithKey(u, k)
    ensures u != []
  {
    WithKeyMember(t, SortKey(t[0]), 0);
    assert WithKey(u, SortKey(t[0])) != [];
  }

  /** Two ascending arrangements that agree on every key's entries start
      with the same entry: both start with the first entry of the least
      key. */
  lemma SameHead(t: seq<TreeNode>, u: seq<TreeNode>)
    requires Sorted(t) && Sorted(u) && t != [] && u != []
    requires forall k :: WithKey(t, k) == WithKey(u, k)
    ensures t[0] == u[0]
  {
    var k, ku := SortKey(t[0]), SortKey(u[0]);
    WithKeyMember(t, k, 0);
    WithKeyMember(u, ku, 0);
    var wt, vu := WithKey(t, ku), WithKey(u, k);
    assert wt[0] in wt;
    WithKeyOnly(t, ku, wt[0]);
    var jt :| 0 <= jt < |t| && t[jt] == wt[0];
    SortedFirstLeast(t, jt);
    assert vu[0] in vu;
    WithKeyOnly(u, k, vu[0]);
    var ju :| 0 <= ju < |u| && u[ju] == vu[0];
    SortedFirstLeast(u, ju);
    Lex.LeAntisym(k, ku);
    assert t[0] == WithKey(t, k)[0] == WithKey(u, k)[0] == u[0];
  }

  /** Dropping a common first entry keeps the agreement on every key. */
  lemma TailAgree(t: seq<TreeNode>, u: seq<TreeNode>)
    requires t != [] && u != [] && t[0] == u[0]
    requires forall k :: WithKey(t, k) == WithKey(u, k)
    ensures forall k :: WithKey(t[1..], k) == WithKey(u[1..], k)
  {
    forall k ensures WithKey(t[1..], k) == WithKey(u[1..], k) {
      var head := if SortKey(t[0]) == k then [t[0]] else [];
      assert WithKey(t, k) == head + WithKey(t[1..], k);
      assert WithKey(u, k) == head + WithKey(u[1..], k);
      assert WithKey(t[1..], k) == (head + WithKey(t[1..], k))[|head|..];
      assert WithKey(u[1..], k) == (head + WithKey(u[1..], k))[|head|..];
    }
  }

  /** Two ascending arrangements that agree on the entries of every key are
      the same arrangement. */
  lemma {:induction false} SortedUnique(t: seq<TreeNode>, u: seq<TreeNode>)
    requires Sorted(t) && Sorted(u)
    requires forall k :: WithKey(t, k) == WithKey(u, k)
    ensures t == u
    decreases |t|
  {
    if t == [] {
      if u != [] {
        WithKeyHead(u);
        assert false;
      }
    } else {
      AgreeNonEmpty(t, u);
      SameHead(t, u);
      SortedTail(t);
      SortedTail(u);
      TailAgree(t, u);
      SortedUnique(t[1..], u[1..]);
      assert t == [t[0]] + t[1..] && u == [u[0]] + u[1..];
    }
  }

  /** Any ascending, stable rearrangement of the entries (whatever sorting
      algorithm produced it) is `SortEntries` of them. */
  lemma StableSortUnique(es: seq<TreeNode>, t: seq<TreeNode>)
    requires Sorted(t)
    requires forall k :: WithKey(t, k) == WithKey(es, k)
    ensures t == SortEntries(es)
  {
    forall k ensures WithKey(t, k) == WithKey(SortEntries(es), k) {
      SortStable(es, k);
    }
    SortedUnique(t, SortEntries(es));
  }

  /** The result of `from_data`: the scanned records, sorted. */
  function Parse(data: Bytes): (r: Result<seq<TreeNode>>)
    ensures r.Ok? <==> ParseRecords(data).Ok?
    ensures r.Ok? ==> Sorted(r.value) && multiset(r.value) == multiset(ParseRecords(data).value)
    ensures r.Ok? ==> forall k :: WithKey(r.value, k) == WithKey(ParseRecords(data).value, k)
    ensures r.Ok? ==> forall i :: 0 <= i < |r.value| ==> Parsed(r.value[i])
  {
    match ParseRecords(data)
    case Err(e) => Err(e)
    case Ok(es) =>
      forall k ensures WithKey(SortEntries(es), k) == WithKey(es, k) { SortStable(es, k); }
      forall i | 0 <= i < |SortEntries(es)| ensures Parsed(SortEntries(es)[i]) {
        assert SortEntries(es)[i] in multiset(es);
      }
      Ok(SortEntries(es))
  }

  function Prepend(es: seq<TreeNode>, r: Result<seq<TreeNode>>): Result<seq<TreeNode>>
  {
    match r
    case Ok(rest) => Ok(es + rest)
    case Err(e) => Err(e)
  }

  /** The scan either stops at the first record, or continues past it. */
  lemma RecordsStep(data: Bytes)
    requires data != []
    ensures ScanRecord(data).0.Err? ==> ParseRecords(data) == Err(ScanRecord(data).0.error)
    ensures ScanRecord(data).0.Ok? ==>
      ParseRecords(data) == Prepend([ScanRecord(data).0.value], ParseRecords(ScanRecord(data).1))
  {
  }

  lemma PrependTwice(es: seq<TreeNode>, e: TreeNode, r: Result<seq<TreeNode>>)
    ensures Prepend(es, Prepend([e], r)) == Prepend(es + [e], r)
  {
    if r.Ok? {
      assert es + ([e] + r.value) == (es + [e]) + r.value;
    }
  }

  /** `TreeObject::from_data`: scans the body record by record, failing on the
      first entry whose kind cannot be determined, then sorts the entries. */
  method FromData(data: Bytes) returns (r: Result<seq<TreeNode>>)
    ensures r == Parse(data)
  {
    var rest := data;
    var entries: seq<TreeNode> := [];
    match ParseRecords(data) {
      case Ok(v) => assert [] + v == v;
      case Err(_) =>
    }
    while rest != []
      invariant ParseRecords(data) == Prepend(entries, ParseRecords(rest))
      decreases |rest|
    {
      var m := TakeUntil(rest, SP);
      var p := TakeUntil(m.1, NUL);
      var n := if |p.1| < 20 then |p.1| else 20;
      var hash := Hex.Encode(p.1[..n]);
      var node := NewNode(m.0, p.0, hash);
      assert (node, p.1[n..]) == ScanRecord(rest);
      RecordsStep(rest);
      if node.Err? {
        return Err(node.error);
      }
      PrependTwice(entries, node.value, ParseRecords(p.1[n..]));
      entries := entries + [node.value];
      rest := p.1[n..];
    }
    assert entries + [] == entries;
    r := Ok(SortEntries(entries));
  }

  /** The hash of every entry can be turned back into bytes (the serializer
      unwraps that conversion). */
  predicate HashesDecode(es: seq<TreeNode>)
  {
    forall i :: 0 <= i < |es| ==> Hex.Decode(es[i].hash).Some?
  }

  /** One entry as written: `<mode> <path>\0` and the raw hash bytes. */
  function Record(e: TreeNode): Bytes
    requires Hex.Decode(e.hash).Some?
  {
    e.mode + [SP] + e.path + [NUL] + Hex.Decode(e.hash).value
  }

  /** A tree body: the records of the entries in their order. */
  function TreeBytes(es: seq<TreeNode>): Bytes
    requires HashesDecode(es)
  {
    if es == [] then [] else Record(es[0]) + TreeBytes(es[1..])
  }

  lemma {:induction false} TreeBytesSnoc(es: seq<TreeNode>, e: TreeNode)
    requires HashesDecode(es) && Hex.Decode(e.hash).Some?
    ensures HashesDecode(es + [e])
    ensures TreeBytes(es + [e]) == TreeBytes(es) + Record(e)
  {
    if es != [] {
      assert (es + [e])[1..] == es[1..] + [e];
      TreeBytesSnoc(es[1..], e);
    }
  }

  lemma RecordAppend(data: Bytes, e: TreeNode)
    requires Hex.Decode(e.hash).Some?
    ensures data + e.mode + [SP] + e.path + [NUL] + Hex.Decode(e.hash).value == data + Record(e)
  {
  }

  /** The body of one more entry is one more record. */
  lemma TreeBytesPrefix(es: seq<TreeNode>, i: nat)
    requires i < |es| && HashesDecode(es)
    ensures HashesDecode(es[..i]) && HashesDecode(es[..i + 1])
    ensures TreeBytes(es[..i + 1]) == TreeBytes(es[..i]) + Record(es[i])
  {
    assert es[..i + 1] == es[..i] + [es[i]];
    assert HashesDecode(es[..i]) by {
      forall j | 0 <= j < i ensures Hex.Decode(es[..i][j].hash).Some? {
        assert es[..i][j] == es[j];
      }
    }
    TreeBytesSnoc(es[..i], es[i]);
  }

  /** The Tree arm of `ObjectHeaders::serialize`: appends each entry's
      record in the order the tree holds them. */
  method Serialize(es: seq<TreeNode>) returns (data: Bytes)
    requires HashesDecode(es)
    ensures data == TreeBytes(es)
  {
    data := [];
    for i := 0 to |es|
      invariant HashesDecode(es[..i]) && data == TreeBytes(es[..i])
    {
      var raw := Hex.Decode(es[i].hash).value;
      RecordAppend(data, es[i]);
      data := data + es[i].mode + [SP] + es[i].path + [NUL] + raw;
      TreeBytesPrefix(es, i);
    }
    assert es[..|es|] == es;
  }

  /** What an entry must be for its record to read back as itself: a
      six-byte mode with a known prefix and no space, a path without NUL and
      a 40-digit lowercase hex hash. */
  predicate WellFormed(e: TreeNode)
  {
    |e.mode| == 6 && SP !in e.mode && FromMode(e.mode) == Ok(e.kind)
    && NUL !in e.path && |e.hash| == 40 && Hex.IsLowerHex(e.hash)
  }

  /** One well-formed record followed by more bytes scans as that entry
      followed by the scan of the rest. */
  lemma RecordParse(e: TreeNode, tail: Bytes)
    requires WellFormed(e)
    ensures Hex.Decode(e.hash).Some?
    ensures ParseRecords(Record(e) + tail) == Prepend([e], ParseRecords(tail))
  {
    var raw := Hex.Decode(e.hash).value;
    var data := Record(e) + tail;
    assert data == e.mode + [SP] + (e.path + [NUL] + (raw + tail));
    TakeUntilSplits(e.mode, SP, e.path + [NUL] + (raw + tail));
    TakeUntilSplits(e.path, NUL, raw + tail);
    var p1 := raw + tail;
    assert |raw| == 20;
    assert p1[..20] == raw && p1[20..] == tail;
    Hex.EncodeDecode(e.hash);
    assert NewNode(e.mode, e.path, e.hash) == Ok(e);
    assert ScanRecord(data) == (Ok(e), tail);
  }

  /** Any record, whatever its mode's length: the mode is the bytes before
      the first space, the path the bytes before the next NUL, and the hash
      the hex text of the 20 bytes after it; the entry is `TreeNode::new` of
      those, so a short mode is padded. */
  lemma ScanRecordSplits(m: Bytes, p: Bytes, raw: Bytes, tail: Bytes)
    requires SP !in m && NUL !in p && |raw| == 20
    ensures ScanRecord(m + [SP] + p + [NUL] + raw + tail) == (NewNode(m, p, Hex.Encode(raw)), tail)
  {
    var data := m + [SP] + p + [NUL] + raw + tail;
    assert data == m + [SP] + (p + [NUL] + (raw + tail));
    TakeUntilSplits(m, SP, p + [NUL] + (raw + tail));
    TakeUntilSplits(p, NUL, raw + tail);
    assert (raw + tail)[..20] == raw && (raw + tail)[20..] == tail;
  }

  /** The last record, when at most 20 bytes follow its NUL: `take(20)`
      returns what is left, the hash is its hex text, and nothing remains. */
  lemma ShortTail(m: Bytes, p: Bytes, raw: Bytes)
    requires SP !in m && NUL !in p && |raw| <= 20
    ensures ScanRecord(m + [SP] + p + [NUL] + raw) == (NewNode(m, p, Hex.Encode(raw)), [])
  {
    RecordDelimiters(m, p, raw);
    ScanRecordAt(m + [SP] + p + [NUL] + raw, m, p, raw);
  }

  /** The two delimiters of a record are found where it was written. */
  lemma RecordDelimiters(m: Bytes, p: Bytes, raw: Bytes)
    requires SP !in m && NUL !in p
    ensures TakeUntil(m + [SP] + p + [NUL] + raw, SP) == (m, p + [NUL] + raw)
    ensures TakeUntil(p + [NUL] + raw, NUL) == (p, raw)
  {
    assert m + [SP] + p + [NUL] + raw == m + [SP] + (p + [NUL] + raw);
    TakeUntilSplits(m, SP, p + [NUL] + raw);
    TakeUntilSplits(p, NUL, raw);
  }

  /** `ScanRecord` once its two delimiters are found. */
  lemma ScanRecordAt(data: Bytes, m: Bytes, p: Bytes, rest: Bytes)
    requires data != []
    requires TakeUntil(data, SP).0 == m
    requires TakeUntil(TakeUntil(data, SP).1, NUL) == (p, rest)
    requires |rest| <= 20
    ensures ScanRecord(data) == (NewNode(m, p, Hex.Encode(rest)), [])
  {
    assert rest[..|rest|] == rest && rest[|rest|..] == [];
  }

  /** A record with no space: the whole data is the mode, the path and the
      hash are empty, and nothing remains. */
  lemma NoSpaceRecord(data: Bytes)
    requires data != [] && SP !in data
    ensures ScanRecord(data) == (NewNode(data, [], Hex.Encode([])), [])
  {
    assert TakeUntil(data, SP) == (data, []);
    assert TakeUntil([], NUL) == ([], []);
  }

  /** A directory record with git's five-byte mode `40000` reads back as a
      Tree entry whose mode is padded to `040000`. */
  lemma DirectoryRecord(p: Bytes, raw: Bytes)
    requires NUL !in p && |raw| == 20
    ensures Parse(Ascii("40000") + [SP] + p + [NUL] + raw)
      == Ok([TreeNode([0x30] + Ascii("40000"), p, Hex.Encode(raw), Tree)])
  {
    var m := Ascii("40000");
    var data := m + [SP] + p + [NUL] + raw;
    DirectoryNode(p, Hex.Encode(raw));
    assert data + [] == data;
    ScanRecordSplits(m, p, raw, []);
    ParseSingle(data, TreeNode([0x30] + m, p, Hex.Encode(raw), Tree));
  }

  lemma DirectoryNode(p: Bytes, h: Bytes)
    ensures SP !in Ascii("40000")
    ensures NewNode(Ascii("40000"), p, h) == Ok(TreeNode([0x30] + Ascii("40000"), p, h, Tree))
  {
    var m := Ascii("40000");
    assert m == [0x34, 0x30, 0x30, 0x30, 0x30];
    assert PadMode(m) == [0x30] + m;
    assert ([0x30] + m)[..2] == Ascii("04");
  }

  /** Data that scans as one entry and nothing left reads back as that
      entry alone. */
  lemma ParseSingle(data: Bytes, e: TreeNode)
    requires data != [] && ScanRecord(data) == (Ok(e), [])
    ensures Parse(data) == Ok([e])
  {
    assert ParseRecords(data) == Ok([e] + []);
    assert [e] + [] == [e];
    SortOne(e);
  }

  lemma {:induction false} RecordsRoundTrip(es: seq<TreeNode>)
    requires forall i :: 0 <= i < |es| ==> WellFormed(es[i])
    ensures HashesDecode(es)
    ensures ParseRecords(TreeBytes(es)) == Ok(es)
  {
    if es != [] {
      RecordsRoundTrip(es[1..]);
      RecordParse(es[0], TreeBytes(es[1..]));
      assert es == [es[0]] + es[1..];
    }
  }

  /** A sorted tree of well-formed entries reads back as itself. */
  lemma TreeRoundTrip(es: seq<TreeNode>)
    requires Sorted(es)
    requires forall i :: 0 <= i < |es| ==> WellFormed(es[i])
    ensures HashesDecode(es)
    ensures Parse(TreeBytes(es)) == Ok(es)
  {
    RecordsRoundTrip(es);
    SortIdentity(es);
  }

  lemma SortOne(x: TreeNode)
    ensures SortEntries([x]) == [x]
  {
    assert [x][1..] == [];
  }

  lemma SortCons(x: TreeNode, es: seq<TreeNode>)
    ensures SortEntries([x] + es) == Insert(x, SortEntries(es))
  {
    assert ([x] + es)[1..] == es;
  }

  lemma InsertFront(e: TreeNode, es: seq<TreeNode>)
    requires es == [] || Lex.Le(SortKey(e), SortKey(es[0]))
    ensures Insert(e, es) == [e] + es
  {
  }

  lemma InsertPast(e: TreeNode, x: TreeNode, rest: seq<TreeNode>)
    requires !Lex.Le(SortKey(e), SortKey(x))
    ensures Insert(e, [x] + rest) == [x] + Insert(e, rest)
  {
    assert ([x] + rest)[1..] == rest;
  }

  /** Two entries whose keys descend strictly sort into reverse order. */
  lemma SortTwo(y: TreeNode, z: TreeNode)
    requires !Lex.Le(SortKey(y), SortKey(z))
    ensures SortEntries([y] + [z]) == [z] + [y]
  {
    SortOne(z);
    SortCons(y, [z]);
    assert [z] + [] == [z];
    InsertPast(y, z, []);
    InsertFront(y, []);
  }

  /** Three entries whose keys descend strictly sort into reverse order. */
  lemma SortThree(x: TreeNode, y: TreeNode, z: TreeNode)
    requires Lex.Le(SortKey(z), SortKey(y)) && !Lex.Le(SortKey(y), SortKey(z))
    requires !Lex.Le(SortKey(x), SortKey(z)) && !Lex.Le(SortKey(x), SortKey(y))
    ensures SortEntries([x] + ([y] + [z])) == [z] + ([y] + [x])
  {
    SortTwo(y, z);
    SortCons(x, [y] + [z]);
    InsertPast(x, z, [y]);
    assert [y] + [] == [y];
    InsertPast(x, y, []);
    InsertFront(x, []);
  }

  lemma ExampleKeys(kb: Bytes, ka: Bytes, kat: Bytes)
    requires kb == Ascii("b.txt") && ka == Ascii("a") + [BACKSLASH] && kat == Ascii("a.txt")
    ensures Lex.Le(kat, ka) && !Lex.Le(ka, kat) && !Lex.Le(kb, kat) && !Lex.Le(kb, ka)
  {
    assert kat[1..][0] == 0x2E && ka[1..][0] == BACKSLASH;
  }

  /** The comparator's example: a file `b.txt`, a directory `a` and a file
      `a.txt` are ordered `a.txt`, `a`, `b.txt`, because "a.txt" is below
      "a\" ('.' is 0x2E, '\' is 0x5C). */
  lemma ExampleOrder(mode: Bytes, hash: Bytes)
    ensures var bt := TreeNode(mode, Ascii("b.txt"), hash, Blob);
            var a := TreeNode(mode, Ascii("a"), hash, Tree);
            var at := TreeNode(mode, Ascii("a.txt"), hash, Blob);
            SortEntries([bt] + ([a] + [at])) == [at] + ([a] + [bt])
  {
    var bt := TreeNode(mode, Ascii("b.txt"), hash, Blob);
    var a := TreeNode(mode, Ascii("a"), hash, Tree);
    var at := TreeNode(mode, Ascii("a.txt"), hash, Blob);
    ExampleKeys(SortKey(bt), SortKey(a), SortKey(at));
    SortThree(bt, a, at);
  }
}
