/** Byte strings and the standard-library string operations the codec is
    built from: `take_while` on a byte iterator, `str::split` and
    `[&str]::join` with a one-byte separator.  Rust `String`s are handled as
    their UTF-8 bytes; every delimiter the codec uses is ASCII, so splitting
    the bytes and splitting the text agree. */
module Bytes {

  type Byte = b: int | 0 <= b < 256
  type Bytes = seq<Byte>

  const SP: Byte := 0x20
  const NUL: Byte := 0x00
  const NL: Byte := 0x0A

  predicate IsAscii(s: string)
  {
    forall i :: 0 <= i < |s| ==> s[i] as int < 128
  }

  /** The bytes of an ASCII string literal. */
  function Ascii(s: string): (r: Bytes)
    requires IsAscii(s)
    ensures |r| == |s|
    ensures forall i :: 0 <= i < |s| ==> r[i] == s[i] as int
  {
    seq(|s|, i requires 0 <= i < |s| => s[i] as int)
  }

  /** `s` starts with `p`. */
  predicate HasPrefix(s: Bytes, p: Bytes)
  {
    |p| <= |s| && s[..|p|] == p
  }

  /** Draining a peekable iterator with `take_while(|b| b != d)`: the bytes
      before the first `d` and what remains after it (the `d` itself is
      consumed); when `s` holds no `d`, all of `s` and nothing. */
  function TakeUntil(s: Bytes, d: Byte): (r: (Bytes, Bytes))
    ensures d !in r.0
    ensures d in s ==> s == r.0 + [d] + r.1
    ensures d !in s ==> r.0 == s && r.1 == []
  {
    if s == [] then ([], [])
    else if s[0] == d then ([], s[1..])
    else
      var t := TakeUntil(s[1..], d);
      assert s == [s[0]] + s[1..];
      ([s[0]] + t.0, t.1)
  }

  /** The decomposition of TakeUntil is unique: a prefix free of `d`
      followed by `d` is exactly what is taken. */
  lemma {:induction false} TakeUntilSplits(a: Bytes, d: Byte, b: Bytes)
    requires d !in a
    ensures TakeUntil(a + [d] + b, d) == (a, b)
  {
    if a == [] {
      assert a + [d] + b == [d] + b;
    } else {
      var s := a + [d] + b;
      assert s[0] == a[0] && s[0] != d;
      assert s[1..] == a[1..] + [d] + b;
      TakeUntilSplits(a[1..], d, b);
      assert [a[0]] + a[1..] == a;
    }
  }

  /** `lines.join(d)`: the parts with one `d` between neighbours. */
  function Join(ls: seq<Bytes>, d: Byte): Bytes
  {
    if |ls| == 0 then []
    else if |ls| == 1 then ls[0]
    else ls[0] + [d] + Join(ls[1..], d)
  }

  /** No part contains the separator. */
  predicate Free(ls: seq<Bytes>, d: Byte)
  {
    forall i :: 0 <= i < |ls| ==> d !in ls[i]
  }

  /** `s.split(d)`: the maximal runs between separators, always at least one
      (an empty `s` gives one empty part, a trailing `d` an empty last part);
      joining the parts gives `s` back. */
  function Split(s: Bytes, d: Byte): (r: seq<Bytes>)
    ensures |r| >= 1 && Free(r, d)
    ensures Join(r, d) == s
    decreases |s|
  {
    if d in s then
      var t := TakeUntil(s, d);
      var rest := Split(t.1, d);
      assert ([t.0] + rest)[1..] == rest;
      [t.0] + rest
    else [s]
  }

  /** Joining two non-empty lists of parts puts one separator between them. */
  lemma {:induction false} JoinAppend(a: seq<Bytes>, b: seq<Bytes>, d: Byte)
    requires |a| >= 1 && |b| >= 1
    ensures Join(a + b, d) == Join(a, d) + [d] + Join(b, d)
  {
    if |a| == 1 {
      assert (a + b)[1..] == b;
    } else {
      assert (a + b)[1..] == a[1..] + b;
      JoinAppend(a[1..], b, d);
    }
  }

  /** Splitting undoes joining parts that are free of the separator. */
  lemma {:induction false} SplitJoin(ls: seq<Bytes>, d: Byte)
    requires |ls| >= 1 && Free(ls, d)
    ensures Split(Join(ls, d), d) == ls
  {
    if |ls| > 1 {
      SplitJoin(ls[1..], d);
      var s := Join(ls, d);
      assert s == ls[0] + [d] + Join(ls[1..], d);
      TakeUntilSplits(ls[0], d, Join(ls[1..], d));
      assert d in s by { assert s[|ls[0]|] == d; }
      assert ls == [ls[0]] + ls[1..];
    }
  }
}
