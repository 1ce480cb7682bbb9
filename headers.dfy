/** The body of commit and tag objects: header lines `key value` (a value's
    newlines continue on lines that start with a space), a blank line, then
    the message (`ObjectHeaders::serialize` / `deserialize` for the Commit
    and Tag variants). */
module HeaderCodec {
  import opened Bytes
  import opened Results

  /** `fields` maps each key to its values; `order` lists the keys in the
      order they are written. */
  datatype Headers = Headers(fields: map<Bytes, seq<Bytes>>, order: seq<Bytes>, message: Bytes)

  /** One header line's key and (unescaped) value. */
  datatype Entry = Entry(key: Bytes, value: Bytes)

  predicate NoDup(s: seq<Bytes>)
  {
    forall i, j :: 0 <= i < j < |s| ==> s[i] != s[j]
  }

  // ---------------------------------------------------------------------
  // Serialization

  /** `value.replace('\n', "\n ")`: a value without newlines is written
      as it is, and each byte becomes one or two bytes. */
  function Escape(v: Bytes): (r: Bytes)
    ensures NL !in v ==> r == v
    ensures |v| <= |r| <= 2 * |v|
  {
    if v == [] then []
    else
      assert v == [v[0]] + v[1..];
      (if v[0] == NL then [NL, SP] else [v[0]]) + Escape(v[1..])
  }

  /** `key` with each of the values of `vs`, in list order. */
  function KeyEntries(key: Bytes, vs: seq<Bytes>): (r: seq<Entry>)
    ensures |r| == |vs|
    ensures forall i :: 0 <= i < |vs| ==> r[i] == Entry(key, vs[i])
  {
    seq(|vs|, i requires 0 <= i < |vs| => Entry(key, vs[i]))
  }

  /** Every key the order names has an entry in the map (`serialize`
      unwraps that lookup). */
  predicate KeysPresent(fields: map<Bytes, seq<Bytes>>, order: seq<Bytes>)
  {
    forall k :: k in order ==> k in fields
  }

  /** The entries in the order `serialize` writes them: the keys in `order`
      sequence, all values of a key together and in list order. */
  function Entries(fields: map<Bytes, seq<Bytes>>, order: seq<Bytes>): seq<Entry>
    requires KeysPresent(fields, order)
  {
    if order == [] then []
    else
      var k := order[|order| - 1];
      Entries(fields, order[..|order| - 1]) + KeyEntries(k, fields[k])
  }

  /** One written header line, `key value` with the value escaped. */
  function Line(e: Entry): Bytes
  {
    e.key + [SP] + Escape(e.value)
  }

  function Lines(es: seq<Entry>): (r: seq<Bytes>)
    ensures |r| == |es|
    ensures forall i :: 0 <= i < |es| ==> r[i] == Line(es[i])
  {
    seq(|es|, i requires 0 <= i < |es| => Line(es[i]))
  }

  /** A commit or tag body as `serialize` writes it: the header lines, an
      empty line and the message, joined by newlines. */
  function HeaderBytes(h: Headers): Bytes
    requires KeysPresent(h.fields, h.order)
  {
    Join(Lines(Entries(h.fields, h.order)) + [[], h.message], NL)
  }

  lemma LinesSnoc(es: seq<Entry>, e: Entry)
    ensures Lines(es + [e]) == Lines(es) + [Line(e)]
  {
  }

  /** One more value of a key adds its `key value` line. */
  lemma ValueStep(prefix: seq<Entry>, key: Bytes, values: seq<Bytes>, j: nat)
    requires j < |values|
    ensures Lines(prefix + KeyEntries(key, values[..j + 1]))
         == Lines(prefix + KeyEntries(key, values[..j])) + [key + [SP] + Escape(values[j])]
  {
    LinesSnoc(prefix + KeyEntries(key, values[..j]), Entry(key, values[j]));
    assert prefix + KeyEntries(key, values[..j + 1]) == (prefix + KeyEntries(key, values[..j])) + [Entry(key, values[j])];
  }

  /** One more key of the order adds the entries of all its values. */
  lemma KeyStep(fields: map<Bytes, seq<Bytes>>, order: seq<Bytes>, i: nat)
    requires KeysPresent(fields, order) && i < |order|
    ensures order[i] in fields
    ensures KeysPresent(fields, order[..i]) && KeysPresent(fields, order[..i + 1])
    ensures Entries(fields, order[..i + 1]) == Entries(fields, order[..i]) + KeyEntries(order[i], fields[order[i]])
  {
    assert order[i] in order;
    forall k | k in order[..i + 1] ensures k in fields {
      var n :| 0 <= n < i + 1 && order[..i + 1][n] == k;
      assert order[n] == k;
    }
    assert order[..i + 1][..i] == order[..i];
  }

  /** The Commit/Tag arm of `ObjectHeaders::serialize`. */
  method Serialize(h: Headers) returns (data: Bytes)
    requires KeysPresent(h.fields, h.order)
    ensures data == HeaderBytes(h)
  {
    var lines: seq<Bytes> := [];
    for i := 0 to |h.order|
      invariant KeysPresent(h.fields, h.order[..i])
      invariant lines == Lines(Entries(h.fields, h.order[..i]))
    {
      KeyStep(h.fields, h.order, i);
      var key := h.order[i];
      var values := h.fields[key];
      ghost var prefix := Entries(h.fields, h.order[..i]);
      assert prefix + KeyEntries(key, values[..0]) == prefix;
      for j := 0 to |values|
        invariant lines == Lines(prefix + KeyEntries(key, values[..j]))
      {
        ValueStep(prefix, key, values, j);
        lines := lines + [key + [SP] + Escape(values[j])];
      }
      assert values[..|values|] == values;
    }
    assert h.order[..|h.order|] == h.order;
    ghost var headerLines := lines;
    lines := lines + [[]];
    lines := lines + [h.message];
    assert lines == headerLines + [[], h.message];
    data := Join(lines, NL);
  }

  // ---------------------------------------------------------------------
  // Deserialization

  /** The number of leading lines that start with a space: the continuation
      lines of the header line before them. */
  function Continuations(ls: seq<Bytes>): (n: nat)
    ensures n <= |ls|
    ensures forall i :: 0 <= i < n ==> ls[i] != [] && ls[i][0] == SP
    ensures n < |ls| ==> !(ls[n] != [] && ls[n][0] == SP)
  {
    if ls != [] && ls[0] != [] && ls[0][0] == SP then 1 + Continuations(ls[1..]) else 0
  }

  /** Continuation lines with their one leading space removed. */
  function Unindented(ls: seq<Bytes>): (r: seq<Bytes>)
    requires forall i :: 0 <= i < |ls| ==> ls[i] != [] && ls[i][0] == SP
    ensures |r| == |ls|
    ensures forall i :: 0 <= i < |ls| ==> [SP] + r[i] == ls[i]
  {
    seq(|ls|, i requires 0 <= i < |ls| && ls[i] != [] => ls[i][1..])
  }

  /** The line scan of `deserialize`: while the current line is not empty,
      split it at its first space into key and value, add the continuation
      lines that follow, and go on; the lines after the first empty line are
      the message.  A header line without a space, or running out of lines
      before an empty one, panics in the source. */
  function ScanHeaders(ls: seq<Bytes>): (r: Result<(seq<Entry>, seq<Bytes>)>)
    ensures r.Err? ==> r.error == Panic(MalformedHeaders)
    ensures r.Ok? ==> forall i :: 0 <= i < |r.value.0| ==> SP !in r.value.0[i].key
    decreases |ls|
  {
    if ls == [] then Err(Panic(MalformedHeaders))
    else if ls[0] == [] then Ok(([], ls[1..]))
    else if SP !in ls[0] then Err(Panic(MalformedHeaders))
    else
      var kv := TakeUntil(ls[0], SP);
      var n := Continuations(ls[1..]);
      var value := Join([kv.1] + Unindented(ls[1..][..n]), NL);
      match ScanHeaders(ls[n + 1..])
      case Err(e) => Err(e)
      case Ok(tail) =>
        var es := [Entry(kv.0, value)] + tail.0;
        assert forall i :: 1 <= i < |es| ==> es[i] == tail.0[i - 1];
        Ok((es, tail.1))
  }

  /** The keys of the entries, each once, in the order of first sight. */
  function Order(es: seq<Entry>): seq<Bytes>
  {
    if es == [] then []
    else
      var o := Order(es[..|es| - 1]);
      var k := es[|es| - 1].key;
      if k in o then o else o + [k]
  }

  /** The values of the entries with key `k`, in encounter order. */
  function Values(es: seq<Entry>, k: Bytes): seq<Bytes>
  {
    if es == [] then []
    else
      var e := es[|es| - 1];
      Values(es[..|es| - 1], k) + (if e.key == k then [e.value] else [])
  }

  /** Each key that occurs maps to its values. */
  function Fields(es: seq<Entry>): map<Bytes, seq<Bytes>>
  {
    map k | k in Order(es) :: Values(es, k)
  }

  /** What the scan's entries become. */
  function Finish(done: seq<Entry>, r: Result<(seq<Entry>, seq<Bytes>)>): Result<Headers>
  {
    match r
    case Err(e) => Err(e)
    case Ok(x) => Ok(Headers(Fields(done + x.0), Order(done + x.0), Join(x.1, NL)))
  }

  /** The headers a commit or tag body holds: repeated keys gather their
      values, each key is listed once in first-sight order and the message is
      the rest of the body. */
  function Parse(data: Bytes): (r: Result<Headers>)
    ensures r.Err? ==> r.error == Panic(MalformedHeaders)
    ensures r.Ok? ==> NoDup(r.value.order)
    ensures r.Ok? ==> forall k :: k in r.value.fields <==> k in r.value.order
    ensures r.Ok? ==> forall k :: k in r.value.fields ==> |r.value.fields[k]| > 0
    ensures r.Ok? ==> forall k :: k in r.value.order ==> SP !in k && NL !in k
  {
    var ls := Split(data, NL);
    var r := ScanHeaders(ls);
    if r.Ok? then
      var es := r.value.0;
      OrderProperties(es);
      assert [] + es == es;
      assert forall i :: 0 <= i < |es| ==> NL !in es[i].key by {
        ScanKeysFree(ls);
      }
      Finish([], r)
    else Err(r.error)
  }

  lemma FreeSuffix(ls: seq<Bytes>, m: nat)
    requires Free(ls, NL) && m <= |ls|
    ensures Free(ls[m..], NL)
  {
    forall i | 0 <= i < |ls| - m ensures NL !in ls[m..][i] {
      assert ls[m..][i] == ls[i + m];
    }
  }

  lemma {:induction false} ScanKeysFree(ls: seq<Bytes>)
    requires Free(ls, NL)
    requires ScanHeaders(ls).Ok?
    ensures forall i :: 0 <= i < |ScanHeaders(ls).value.0| ==> NL !in ScanHeaders(ls).value.0[i].key
    decreases |ls|
  {
    if ls != [] && ls[0] != [] && SP in ls[0] {
      var n := Continuations(ls[1..]);
      FreeSuffix(ls, n + 1);
      ScanKeysFree(ls[n + 1..]);
      var kv := TakeUntil(ls[0], SP);
      assert NL !in ls[0];
      assert forall x :: x in kv.0 ==> x in ls[0];
    }
  }

  lemma {:induction false} OrderProperties(es: seq<Entry>)
    ensures NoDup(Order(es))
    ensures forall k :: k in Order(es) <==> exists i :: 0 <= i < |es| && es[i].key == k
    ensures forall k :: k in Order(es) ==> |Values(es, k)| > 0
    ensures forall k :: k !in Order(es) ==> Values(es, k) == []
  {
    if es != [] {
      var init := es[..|es| - 1];
      var e := es[|es| - 1];
      OrderProperties(init);
      forall k ensures k in Order(es) <==> exists i :: 0 <= i < |es| && es[i].key == k {
        if k in Order(es) && k != e.key {
          var i :| 0 <= i < |init| && init[i].key == k;
          assert es[i].key == k;
        }
        if exists i :: 0 <= i < |es| && es[i].key == k {
          var i :| 0 <= i < |es| && es[i].key == k;
          if i < |init| { assert init[i].key == k; }
        }
      }
    }
  }

  lemma ValuesSnoc(es: seq<Entry>, e: Entry, k: Bytes)
    ensures Values(es + [e], k) == Values(es, k) + (if e.key == k then [e.value] else [])
  {
    assert (es + [e])[..|es|] == es;
  }

  lemma OrderSnoc(es: seq<Entry>, e: Entry)
    ensures Order(es + [e]) == if e.key in Order(es) then Order(es) else Order(es) + [e.key]
  {
    assert (es + [e])[..|es|] == es;
  }

  lemma AbsentValues(es: seq<Entry>, k: Bytes)
    requires k !in Order(es)
    ensures Values(es, k) == []
  {
    OrderProperties(es);
  }

  /** Appending an entry appends its value to its key's list, and lists the
      key at the end of the order only when it is new. */
  lemma FieldsSnoc(es: seq<Entry>, e: Entry)
    ensures Order(es + [e]) == if e.key in Order(es) then Order(es) else Order(es) + [e.key]
    ensures Fields(es + [e]) ==
      if e.key in Fields(es) then Fields(es)[e.key := Fields(es)[e.key] + [e.value]]
      else Fields(es)[e.key := [e.value]]
  {
    OrderSnoc(es, e);
    var f, g := Fields(es), Fields(es + [e]);
    var want := if e.key in f then f[e.key := f[e.key] + [e.value]] else f[e.key := [e.value]];
    assert g.Keys == want.Keys;
    forall k | k in g ensures g[k] == want[k] {
      ValuesSnoc(es, e, k);
      if k !in f { AbsentValues(es, k); }
    }
  }

  lemma FinishStep(done: seq<Entry>, e: Entry, r: Result<(seq<Entry>, seq<Bytes>)>)
    ensures Finish(done, if r.Ok? then Ok(([e] + r.value.0, r.value.1)) else r) == Finish(done + [e], r)
  {
    if r.Ok? {
      assert done + ([e] + r.value.0) == (done + [e]) + r.value.0;
    }
  }

  lemma UnindentedSnoc(ls: seq<Bytes>, lo: nat, hi: nat)
    requires lo <= hi < |ls|
    requires forall i :: lo <= i <= hi ==> ls[i] != [] && ls[i][0] == SP
    ensures Unindented(ls[lo..hi + 1]) == Unindented(ls[lo..hi]) + [ls[hi][1..]]
  {
    assert ls[lo..hi + 1] == ls[lo..hi] + [ls[hi]];
  }

  /** One step of the scan: a header line at `start` with its continuation
      lines up to `end` is one entry before the scan from `end`. A proof
      helper that unfolds `ScanHeaders` once, at an index, for `Deserialize`;
      not a property of its own. */
  lemma ScanStep(lines: seq<Bytes>, start: nat, end: nat, value: seq<Bytes>)
    requires start < end <= |lines|
    requires lines[start] != [] && SP in lines[start]
    requires forall i :: start + 1 <= i < end ==> lines[i] != [] && lines[i][0] == SP
    requires end < |lines| ==> !(lines[end] != [] && lines[end][0] == SP)
    requires value == [TakeUntil(lines[start], SP).1] + Unindented(lines[start + 1..end])
    ensures ScanHeaders(lines[start..]) ==
      (var e := Entry(TakeUntil(lines[start], SP).0, Join(value, NL));
       var r := ScanHeaders(lines[end..]);
       if r.Ok? then Ok(([e] + r.value.0, r.value.1)) else r)
  {
    var rest := lines[start..];
    var n := end - start - 1;
    assert rest[0] == lines[start];
    assert rest[1..] == lines[start + 1..];
    ContinuationsExact(rest[1..], n);
    ScanFront(rest, n);
    assert rest[1..][..n] == lines[start + 1..end];
    assert rest[n + 1..] == lines[end..];
  }

  /** The scan of lines that start with a header line followed by `n`
      continuation lines. A proof helper: one unfolding of `ScanHeaders`. */
  lemma ScanFront(ls: seq<Bytes>, n: nat)
    requires ls != [] && ls[0] != [] && SP in ls[0]
    requires n < |ls| && Continuations(ls[1..]) == n
    ensures ScanHeaders(ls) ==
      (var kv := TakeUntil(ls[0], SP);
       var e := Entry(kv.0, Join([kv.1] + Unindented(ls[1..][..n]), NL));
       var r := ScanHeaders(ls[n + 1..]);
       if r.Ok? then Ok(([e] + r.value.0, r.value.1)) else r)
  {
  }

  /** The inner loop of `deserialize`: from line `from` on, takes the lines
      that start with a space, without that space, as the further lines of
      a value whose first line is `first`. */
  method GatherValue(lines: seq<Bytes>, first: Bytes, from: nat) returns (value: seq<Bytes>, end: nat)
    requires from <= |lines|
    ensures from <= end <= |lines|
    ensures forall i :: from <= i < end ==> lines[i] != [] && lines[i][0] == SP
    ensures end < |lines| ==> !(lines[end] != [] && lines[end][0] == SP)
    ensures value == [first] + Unindented(lines[from..end])
  {
    value := [first];
    end := from;
    while end < |lines| && lines[end] != [] && lines[end][0] == SP
      invariant from <= end <= |lines|
      invariant forall i :: from <= i < end ==> lines[i] != [] && lines[i][0] == SP
      invariant value == [first] + Unindented(lines[from..end])
    {
      UnindentedSnoc(lines, from, end);
      assert [first] + Unindented(lines[from..end + 1]) == value + [lines[end][1..]];
      value := value + [lines[end][1..]];
      end := end + 1;
    }
  }

  /** `deserialize` for the Commit and Tag types: walks the lines with a
      start index and an end index, gathering each value's continuation lines
      and recording each key in the order list on first sight. */
  method Deserialize(data: Bytes) returns (r: Result<Headers>)
    ensures r == Parse(data)
  {
    var lines := Split(data, NL);
    var fields: map<Bytes, seq<Bytes>> := map[];
    var order: seq<Bytes> := [];
    ghost var done: seq<Entry> := [];
    var start := 0;
    assert lines[start..] == lines;
    while lines[start] != []
      invariant 0 <= start < |lines|
      invariant fields == Fields(done) && order == Order(done)
      invariant Parse(data) == Finish(done, ScanHeaders(lines[start..]))
      decreases |lines| - start
    {
      if SP !in lines[start] {
        assert lines[start..][0] == lines[start];
        return Err(Panic(MalformedHeaders));
      }
      var kv := TakeUntil(lines[start], SP);
      var key := kv.0;
      var value, end := GatherValue(lines, kv.1, start + 1);
      ScanStep(lines, start, end, value);
      if end == |lines| {
        assert lines[end..] == [];
        return Err(Panic(MalformedHeaders));
      }
      var joined := Join(value, NL);
      FinishStep(done, Entry(key, joined), ScanHeaders(lines[end..]));
      FieldsSnoc(done, Entry(key, joined));
      if key in fields {
        fields := fields[key := fields[key] + [joined]];
      } else {
        fields := fields[key := [joined]];
      }
      if key !in order {
        order := order + [key];
      }
      done := done + [Entry(key, joined)];
      start := end;
    }
    assert lines[start..][0] == [] && lines[start..][1..] == lines[start + 1..];
    assert done + [] == done;
    r := Ok(Headers(fields, order, Join(lines[start + 1..], NL)));
  }

  lemma {:induction false} ContinuationsExact(ls: seq<Bytes>, n: nat)
    requires n <= |ls|
    requires forall i :: 0 <= i < n ==> ls[i] != [] && ls[i][0] == SP
    requires n < |ls| ==> !(ls[n] != [] && ls[n][0] == SP)
    ensures Continuations(ls) == n
  {
    if n > 0 {
      ContinuationsExact(ls[1..], n - 1);
    }
  }

  // ---------------------------------------------------------------------
  // Round trip

  /** A key that reads back as itself: not empty (a line starting with a
      space would continue the previous value), no space (the line is split
      at its first space), no newline. */
  predicate ValidKey(k: Bytes)
  {
    |k| > 0 && SP !in k && NL !in k
  }

  /** Headers that `deserialize` gives back unchanged after `serialize`. */
  predicate WellFormed(h: Headers)
  {
    NoDup(h.order)
    && (forall k :: k in h.order ==> k in h.fields)
    && (forall k :: k in h.fields ==> k in h.order && |h.fields[k]| > 0)
    && (forall k :: k in h.order ==> ValidKey(k))
  }

  /** Every line gets a space in front. */
  function Indent(ps: seq<Bytes>): (r: seq<Bytes>)
    ensures |r| == |ps|
    ensures forall i :: 0 <= i < |ps| ==> r[i] == [SP] + ps[i]
  {
    seq(|ps|, i requires 0 <= i < |ps| => [SP] + ps[i])
  }

  /** The lines a value's parts are written on after the text `a`: the
      first part after `a`, every other part after a space. */
  function Continued(a: Bytes, ps: seq<Bytes>): seq<Bytes>
    requires |ps| >= 1
  {
    [a + ps[0]] + Indent(ps[1..])
  }

  /** The lines of one written header. */
  function EntryLines(e: Entry): seq<Bytes>
  {
    Continued(e.key + [SP], Split(e.value, NL))
  }

  function Flat(es: seq<Entry>): seq<Bytes>
  {
    if es == [] then [] else EntryLines(es[0]) + Flat(es[1..])
  }

  lemma EscapeCons(x: Byte, rest: Bytes)
    ensures Escape([x] + rest) == (if x == NL then [NL, SP] else [x]) + Escape(rest)
  {
    assert ([x] + rest)[1..] == rest;
  }

  lemma {:induction false} EscapeAppend(a: Bytes, b: Bytes)
    ensures Escape(a + b) == Escape(a) + Escape(b)
  {
    if a != [] {
      var x, t := a[0], a[1..];
      var h: Bytes := if x == NL then [NL, SP] else [x];
      assert a + b == [x] + (t + b);
      assert a == [x] + t;
      EscapeCons(x, t + b);
      EscapeCons(x, t);
      EscapeAppend(t, b);
      BytesAssoc(h, Escape(t), Escape(b));
    } else {
      assert a + b == b;
    }
  }

  lemma BytesAssoc(a: Bytes, b: Bytes, c: Bytes)
    ensures a + (b + c) == (a + b) + c
  {
  }

  lemma EscapeAtNewline(c: Bytes, t: Bytes)
    requires NL !in c
    ensures Escape(c + [NL] + t) == c + [NL, SP] + Escape(t)
  {
    EscapeAppend(c + [NL], t);
    EscapeAppend(c, [NL]);
    assert Escape([NL]) == [NL, SP];
  }

  lemma JoinCons(x: Bytes, rest: seq<Bytes>)
    requires |rest| >= 1
    ensures Join([x] + rest, NL) == x + [NL] + Join(rest, NL)
  {
    assert ([x] + rest)[1..] == rest;
  }

  /** Written after a space, a value's parts are its indented parts. */
  lemma ContinuedSpace(ps: seq<Bytes>)
    requires |ps| >= 1
    ensures Continued([SP], ps) == Indent(ps)
  {
    var c := Continued([SP], ps);
    forall i | 0 <= i < |ps| ensures c[i] == Indent(ps)[i] {
      if i > 0 { assert c[i] == Indent(ps[1..])[i - 1]; }
    }
  }

  lemma ContinuedCons(a: Bytes, x: Bytes, ps: seq<Bytes>)
    requires |ps| >= 1
    ensures Continued(a, [x] + ps) == [a + x] + Indent(ps)
  {
    assert ([x] + ps)[1..] == ps;
  }

  /** Splitting at the first newline: the first part, then the parts of
      the rest. */
  lemma SplitFirst(v: Bytes)
    requires NL in v
    ensures Split(v, NL) == [TakeUntil(v, NL).0] + Split(TakeUntil(v, NL).1, NL)
  {
  }

  lemma EscapeRegroup(a: Bytes, c: Bytes, e: Bytes)
    ensures a + (c + [NL, SP] + e) == (a + c) + [NL] + ([SP] + e)
  {
  }

  /** Escaping a value after the text `a` writes the value's lines one per
      written line, each after the first behind a space. */
  lemma {:induction false} EscapeLines(a: Bytes, v: Bytes)
    requires NL !in a
    ensures a + Escape(v) == Join(Continued(a, Split(v, NL)), NL)
    decreases |v|
  {
    if NL in v {
      var t := TakeUntil(v, NL);
      var ps := Split(t.1, NL);
      SplitFirst(v);
      EscapeAtNewline(t.0, t.1);
      EscapeLines([SP], t.1);
      ContinuedSpace(ps);
      ContinuedCons(a, t.0, ps);
      JoinCons(a + t.0, Indent(ps));
      EscapeRegroup(a, t.0, Escape(t.1));
    }
  }

  lemma NotInAppend(x: Bytes, y: Bytes)
    requires NL !in x && NL !in y
    ensures NL !in x + y
  {
    forall i | 0 <= i < |x + y| ensures (x + y)[i] != NL {
      if i < |x| { assert (x + y)[i] == x[i]; } else { assert (x + y)[i] == y[i - |x|]; }
    }
  }

  lemma IndentFree(ps: seq<Bytes>)
    requires Free(ps, NL)
    ensures Free(Indent(ps), NL)
  {
    forall i | 0 <= i < |ps| ensures NL !in Indent(ps)[i] {
      NotInAppend([SP], ps[i]);
    }
  }

  lemma FreeCons(x: Bytes, ls: seq<Bytes>)
    requires NL !in x && Free(ls, NL)
    ensures Free([x] + ls, NL)
  {
    forall i | 0 <= i < |[x] + ls| ensures NL !in ([x] + ls)[i] {
      if i > 0 { assert ([x] + ls)[i] == ls[i - 1]; }
    }
  }

  lemma EntryLinesFree(e: Entry)
    requires NL !in e.key
    ensures Free(EntryLines(e), NL)
  {
    var ps := Split(e.value, NL);
    var first := e.key + [SP];
    NotInAppend(e.key, [SP]);
    NotInAppend(first, ps[0]);
    FreeSuffix(ps, 1);
    IndentFree(ps[1..]);
    FreeCons(first + ps[0], Indent(ps[1..]));
  }

  lemma FreeAppend(a: seq<Bytes>, b: seq<Bytes>)
    requires Free(a, NL) && Free(b, NL)
    ensures Free(a + b, NL)
  {
    forall i | 0 <= i < |a + b| ensures NL !in (a + b)[i] {
      if i < |a| { assert (a + b)[i] == a[i]; } else { assert (a + b)[i] == b[i - |a|]; }
    }
  }

  lemma {:induction false} FlatFree(es: seq<Entry>)
    requires forall i :: 0 <= i < |es| ==> NL !in es[i].key
    ensures Free(Flat(es), NL)
  {
    if es != [] {
      FlatFree(es[1..]);
      EntryLinesFree(es[0]);
      FreeAppend(EntryLines(es[0]), Flat(es[1..]));
    }
  }

  /** A line that is the join of `ls`, in front of `x`, writes the same
      bytes as `ls` in front of `y` when `x` and `y` do. */
  lemma JoinStep(l: Bytes, ls: seq<Bytes>, x: seq<Bytes>, y: seq<Bytes>)
    requires |ls| >= 1 && |x| >= 1 && |y| >= 1
    requires l == Join(ls, NL) && Join(x, NL) == Join(y, NL)
    ensures Join([l] + x, NL) == Join(ls + y, NL)
  {
    JoinCons(l, x);
    JoinAppend(ls, y, NL);
  }

  lemma LinesCons(es: seq<Entry>, tail: seq<Bytes>)
    requires es != []
    ensures Lines(es) + tail == [Line(es[0])] + (Lines(es[1..]) + tail)
  {
    assert Lines(es) == [Line(es[0])] + Lines(es[1..]);
  }

  lemma FlatCons(es: seq<Entry>, tail: seq<Bytes>)
    requires es != []
    ensures Flat(es) + tail == EntryLines(es[0]) + (Flat(es[1..]) + tail)
  {
    FlatUnfold(es);
    LinesAssoc(EntryLines(es[0]), Flat(es[1..]), tail);
  }

  lemma FlatUnfold(es: seq<Entry>)
    requires es != []
    ensures Flat(es) == EntryLines(es[0]) + Flat(es[1..])
  {
  }

  lemma LinesAssoc(a: seq<Bytes>, b: seq<Bytes>, c: seq<Bytes>)
    ensures (a + b) + c == a + (b + c)
  {
  }

  lemma KeysTail(es: seq<Entry>)
    requires es != []
    requires forall i :: 0 <= i < |es| ==> NL !in es[i].key
    ensures NL !in es[0].key
    ensures forall i :: 0 <= i < |es[1..]| ==> NL !in es[1..][i].key
  {
    forall i | 0 <= i < |es[1..]| ensures NL !in es[1..][i].key {
      assert es[1..][i] == es[i + 1];
    }
  }

  /** A header line is the join of its entry's written lines. */
  lemma LineJoin(e: Entry)
    requires NL !in e.key
    ensures Line(e) == Join(EntryLines(e), NL)
  {
    EscapeLines(e.key + [SP], e.value);
  }

  /** Writing the header lines and then `tail` gives the same bytes as
      writing the lines of every value part and then `tail`. */
  lemma {:induction false} JoinFlat(es: seq<Entry>, tail: seq<Bytes>)
    requires |tail| >= 1
    requires forall i :: 0 <= i < |es| ==> NL !in es[i].key
    ensures Join(Lines(es) + tail, NL) == Join(Flat(es) + tail, NL)
  {
    if es != [] {
      var e, rest := es[0], es[1..];
      KeysTail(es);
      JoinFlat(rest, tail);
      LinesCons(es, tail);
      FlatCons(es, tail);
      LineJoin(e);
      JoinStep(Line(e), EntryLines(e), Lines(rest) + tail, Flat(rest) + tail);
    }
  }

  /** The message after some lines joins the same as its own lines. */
  lemma MessageLines(x: seq<Bytes>, msg: Bytes)
    requires |x| >= 1
    ensures Join(x + [msg], NL) == Join(x + Split(msg, NL), NL)
  {
    JoinAppend(x, [msg], NL);
    JoinAppend(x, Split(msg, NL), NL);
  }

  lemma BodyLinesFree(es: seq<Entry>, msg: Bytes)
    requires forall i :: 0 <= i < |es| ==> NL !in es[i].key
    ensures Free(Flat(es) + [[]] + Split(msg, NL), NL)
  {
    FlatFree(es);
    FreeAppend(Flat(es), [[]]);
    FreeAppend(Flat(es) + [[]], Split(msg, NL));
  }

  /** The keys of the entries of a key list free of newlines are free of
      newlines. */
  lemma EntryKeysFree(fields: map<Bytes, seq<Bytes>>, order: seq<Bytes>)
    requires KeysPresent(fields, order)
    requires forall k :: k in order ==> NL !in k
    ensures forall i :: 0 <= i < |Entries(fields, order)| ==> NL !in Entries(fields, order)[i].key
  {
    EntryKeys(fields, order);
  }

  /** The lines of a serialized body: the lines of every header value part,
      the empty line, and the lines of the message. */
  lemma SerializedLines(h: Headers)
    requires KeysPresent(h.fields, h.order)
    requires forall k :: k in h.order ==> NL !in k
    ensures var es := Entries(h.fields, h.order);
            Split(HeaderBytes(h), NL) == Flat(es) + [[]] + Split(h.message, NL)
  {
    var es := Entries(h.fields, h.order);
    EntryKeysFree(h.fields, h.order);
    JoinFlat(es, [[], h.message]);
    var x := Flat(es) + [[]];
    assert Flat(es) + [[], h.message] == x + [h.message];
    MessageLines(x, h.message);
    BodyLinesFree(es, h.message);
    SplitJoin(x + Split(h.message, NL), NL);
  }

  lemma {:induction false} EntryKeys(fields: map<Bytes, seq<Bytes>>, order: seq<Bytes>)
    requires KeysPresent(fields, order)
    ensures forall i :: 0 <= i < |Entries(fields, order)| ==> Entries(fields, order)[i].key in order
  {
    if order != [] {
      var init := order[..|order| - 1];
      EntryKeys(fields, init);
      var k := order[|order| - 1];
      var es := Entries(fields, order);
      forall i | 0 <= i < |es| ensures es[i].key in order {
        var a := Entries(fields, init);
        if i < |a| {
          assert es[i] == a[i];
          assert a[i].key in init;
        } else {
          assert es[i] == KeyEntries(k, fields[k])[i - |a|];
        }
      }
    }
  }

  /** Where the parts of an entry's lines sit among the lines after it. */
  lemma EntryLinesShape(e: Entry, tail: seq<Bytes>)
    requires tail != []
    ensures var ps := Split(e.value, NL);
            var ls := EntryLines(e) + tail;
            var m := |ps| - 1;
            m + 1 < |ls|
            && ls[0] == e.key + [SP] + ps[0]
            && ls[1..m + 1] == Indent(ps[1..])
            && ls[m + 1..] == tail
  {
    var ps := Split(e.value, NL);
    var more := Indent(ps[1..]);
    var ls := EntryLines(e) + tail;
    assert ls == [e.key + [SP] + ps[0]] + more + tail;
    assert ls[1..|ps|] == more;
    assert ls[|ps|..] == tail;
  }

  lemma UnindentIndent(ps: seq<Bytes>)
    ensures Unindented(Indent(ps)) == ps
  {
    var u := Unindented(Indent(ps));
    forall i | 0 <= i < |ps| ensures u[i] == ps[i] {
      assert [SP] + u[i] == [SP] + ps[i];
      assert u[i] == ([SP] + u[i])[1..];
    }
  }

  /** One header's lines, then lines that do not continue it, scan as that
      entry followed by the scan of the rest. */
  lemma ScanEntry(e: Entry, tail: seq<Bytes>)
    requires ValidKey(e.key)
    requires tail != [] && !(tail[0] != [] && tail[0][0] == SP)
    ensures ScanHeaders(EntryLines(e) + tail) ==
      (var r := ScanHeaders(tail); if r.Ok? then Ok(([e] + r.value.0, r.value.1)) else r)
  {
    var ps := Split(e.value, NL);
    var ls := EntryLines(e) + tail;
    var m := |ps| - 1;
    EntryLinesShape(e, tail);
    TakeUntilSplits(e.key, SP, ps[0]);
    assert SP in ls[0] by { assert ls[0][|e.key|] == SP; }
    forall i | 1 <= i < m + 1 ensures ls[i] != [] && ls[i][0] == SP {
      assert ls[i] == ls[1..m + 1][i - 1];
    }
    assert ls[m + 1] == ls[m + 1..][0];
    UnindentIndent(ps[1..]);
    assert [ps[0]] + ps[1..] == ps;
    ScanStep(ls, 0, m + 1, ps);
    assert ls[0..] == ls;
  }

  /** After written entries comes a line that does not continue the last
      of them: the next entry's first line or the empty line. */
  lemma FlatStart(es: seq<Entry>, msg: seq<Bytes>)
    requires forall i :: 0 <= i < |es| ==> ValidKey(es[i].key)
    ensures var ls := Flat(es) + [[]] + msg;
            ls != [] && !(ls[0] != [] && ls[0][0] == SP)
  {
    var ls := Flat(es) + [[]] + msg;
    if es != [] {
      var e := es[0];
      assert ls[0] == EntryLines(e)[0] == e.key + [SP] + Split(e.value, NL)[0];
      assert ls[0][0] == e.key[0];
      assert e.key[0] in e.key;
    } else {
      assert ls[0] == [];
    }
  }

  lemma FlatMessage(es: seq<Entry>, msg: seq<Bytes>)
    requires es != []
    ensures Flat(es) + [[]] + msg == EntryLines(es[0]) + (Flat(es[1..]) + [[]] + msg)
  {
    FlatUnfold(es);
    LinesAssoc(EntryLines(es[0]), Flat(es[1..]), [[]]);
    LinesAssoc(EntryLines(es[0]), Flat(es[1..]) + [[]], msg);
  }

  lemma ValidTail(es: seq<Entry>)
    requires es != []
    requires forall i :: 0 <= i < |es| ==> ValidKey(es[i].key)
    ensures ValidKey(es[0].key)
    ensures forall i :: 0 <= i < |es[1..]| ==> ValidKey(es[1..][i].key)
  {
    forall i | 0 <= i < |es[1..]| ensures ValidKey(es[1..][i].key) {
      assert es[1..][i] == es[i + 1];
    }
  }

  lemma ScanEmptyLine(msg: seq<Bytes>)
    ensures ScanHeaders([[]] + msg) == Ok(([], msg))
  {
    assert ([[]] + msg)[1..] == msg;
  }

  /** An entry's lines in front of lines that scan to `es` and `msg` scan
      to the entry, then `es`, and `msg`. */
  lemma ScanCons(e: Entry, es: seq<Entry>, msg: seq<Bytes>)
    requires ValidKey(e.key)
    requires forall i :: 0 <= i < |es| ==> ValidKey(es[i].key)
    requires ScanHeaders(Flat(es) + [[]] + msg) == Ok((es, msg))
    ensures ScanHeaders(EntryLines(e) + (Flat(es) + [[]] + msg)) == Ok(([e] + es, msg))
  {
    FlatStart(es, msg);
    ScanEntry(e, Flat(es) + [[]] + msg);
  }

  lemma {:induction false} ScanFlat(es: seq<Entry>, msg: seq<Bytes>)
    requires forall i :: 0 <= i < |es| ==> ValidKey(es[i].key)
    ensures ScanHeaders(Flat(es) + [[]] + msg) == Ok((es, msg))
  {
    if es == [] {
      assert Flat(es) + [[]] + msg == [[]] + msg;
      ScanEmptyLine(msg);
    } else {
      ValidTail(es);
      ScanFlat(es[1..], msg);
      ScanCons(es[0], es[1..], msg);
      FlatMessage(es, msg);
      assert [es[0]] + es[1..] == es;
    }
  }

  /** The entries of a key's values, split before the last value. */
  lemma KeyEntriesSnoc(a: seq<Entry>, k: Bytes, vs: seq<Bytes>)
    requires vs != []
    ensures var b := a + KeyEntries(k, vs);
            b != [] && b[..|b| - 1] == a + KeyEntries(k, vs[..|vs| - 1])
            && b[|b| - 1] == Entry(k, vs[|vs| - 1])
  {
  }

  /** Entries with one key appended to `a`: the key is listed at the end
      unless it was already there. */
  lemma {:induction false} GroupKey(a: seq<Entry>, k: Bytes, vs: seq<Bytes>)
    requires |vs| > 0
    ensures Order(a + KeyEntries(k, vs)) == if k in Order(a) then Order(a) else Order(a) + [k]
    decreases |vs|
  {
    var init := vs[..|vs| - 1];
    KeyEntriesSnoc(a, k, vs);
    if |vs| == 1 {
      assert a + KeyEntries(k, init) == a;
    } else {
      GroupKey(a, k, init);
    }
  }

  /** ... and the key gets exactly those values after its earlier ones. */
  lemma {:induction false} GroupValues(a: seq<Entry>, k: Bytes, vs: seq<Bytes>, j: Bytes)
    ensures Values(a + KeyEntries(k, vs), j) == Values(a, j) + (if j == k then vs else [])
    decreases |vs|
  {
    if vs == [] {
      assert a + KeyEntries(k, vs) == a;
    } else {
      var init := vs[..|vs| - 1];
      KeyEntriesSnoc(a, k, vs);
      GroupValues(a, k, init, j);
      assert init + [vs[|vs| - 1]] == vs;
    }
  }

  lemma NoDupLast(order: seq<Bytes>)
    requires NoDup(order) && order != []
    ensures NoDup(order[..|order| - 1])
    ensures order[|order| - 1] !in order[..|order| - 1]
  {
    var init := order[..|order| - 1];
    forall i | 0 <= i < |init| ensures init[i] != order[|order| - 1] {
      assert init[i] == order[i];
    }
  }

  /** The entries of `order`, split before its last key. */
  lemma EntriesSnoc(fields: map<Bytes, seq<Bytes>>, order: seq<Bytes>)
    requires order != [] && KeysPresent(fields, order)
    ensures var init, k := order[..|order| - 1], order[|order| - 1];
            order == init + [k] && k in fields && KeysPresent(fields, init)
            && Entries(fields, order) == Entries(fields, init) + KeyEntries(k, fields[k])
  {
    var init := order[..|order| - 1];
    assert order == init + [order[|order| - 1]];
    forall j | j in init ensures j in fields {
      assert j in order;
    }
  }

  lemma NonEmptyInit(fields: map<Bytes, seq<Bytes>>, order: seq<Bytes>)
    requires order != []
    requires forall k :: k in order ==> k in fields && |fields[k]| > 0
    ensures forall k :: k in order[..|order| - 1] ==> k in fields && |fields[k]| > 0
  {
    forall j | j in order[..|order| - 1] ensures j in fields && |fields[j]| > 0 {
      assert j in order;
    }
  }

  /** Writing the keys of `order` (each once) and reading the entries back
      lists the keys in that order. */
  lemma {:induction false} EntriesOrder(fields: map<Bytes, seq<Bytes>>, order: seq<Bytes>)
    requires NoDup(order)
    requires forall k :: k in order ==> k in fields && |fields[k]| > 0
    ensures KeysPresent(fields, order)
    ensures Order(Entries(fields, order)) == order
  {
    if order != [] {
      var init, k := order[..|order| - 1], order[|order| - 1];
      EntriesSnoc(fields, order);
      NoDupLast(order);
      NonEmptyInit(fields, order);
      EntriesOrder(fields, init);
      GroupKey(Entries(fields, init), k, fields[k]);
    }
  }

  /** ... and gathers each key's values back into its list. */
  lemma {:induction false} EntriesValues(fields: map<Bytes, seq<Bytes>>, order: seq<Bytes>, j: Bytes)
    requires NoDup(order)
    requires KeysPresent(fields, order)
    ensures Values(Entries(fields, order), j) == if j in order then fields[j] else []
  {
    if order != [] {
      var init, k := order[..|order| - 1], order[|order| - 1];
      EntriesSnoc(fields, order);
      NoDupLast(order);
      EntriesValues(fields, init, j);
      GroupValues(Entries(fields, init), k, fields[k], j);
      assert j in order <==> j in init || j == k;
    }
  }

  lemma ParseScanned(data: Bytes, es: seq<Entry>, rest: seq<Bytes>)
    requires ScanHeaders(Split(data, NL)) == Ok((es, rest))
    ensures Parse(data) == Ok(Headers(Fields(es), Order(es), Join(rest, NL)))
  {
    assert [] + es == es;
  }

  /** Reading back the entries of well-formed headers regroups them into
      the same map and key order. */
  lemma EntriesRegroup(h: Headers)
    requires WellFormed(h)
    ensures KeysPresent(h.fields, h.order)
    ensures Fields(Entries(h.fields, h.order)) == h.fields
    ensures Order(Entries(h.fields, h.order)) == h.order
  {
    var es := Entries(h.fields, h.order);
    EntriesOrder(h.fields, h.order);
    forall j | j in h.order ensures Values(es, j) == h.fields[j] {
      EntriesValues(h.fields, h.order, j);
    }
  }

  /** `deserialize(serialize(h)) == h` for well-formed headers. */
  lemma HeadersRoundTrip(h: Headers)
    requires WellFormed(h)
    ensures KeysPresent(h.fields, h.order)
    ensures Parse(HeaderBytes(h)) == Ok(h)
  {
    var es := Entries(h.fields, h.order);
    var msg := Split(h.message, NL);
    SerializedLines(h);
    EntryKeys(h.fields, h.order);
    ScanFlat(es, msg);
    ParseScanned(HeaderBytes(h), es, msg);
    EntriesRegroup(h);
  }
}
