/** The four object types and their names, as written in an object's
    envelope header (`ObjectTypes` with `to_string` / `from_string`). */
module Cli {
  import opened Bytes
  import opened Results

  datatype ObjectType = Commit | Tree | Tag | Blob

  /** The four names the envelope header may carry. */
  function Names(): set<Bytes>
  {
    {Ascii("commit"), Ascii("tree"), Ascii("tag"), Ascii("blob")}
  }

  /** `to_string`: one of the four names, none containing the envelope's
      delimiters (a space ends the header, a NUL ends the length). */
  function TypeName(t: ObjectType): (r: Bytes)
    ensures r in Names()
    ensures |r| >= 3 && SP !in r && NUL !in r
  {
    match t
    case Commit => Ascii("commit")
    case Blob => Ascii("blob")
    case Tag => Ascii("tag")
    case Tree => Ascii("tree")
  }

  /** `from_string`: accepts exactly the four names and yields the type that
      is written that way; any other name panics in the source. */
  function FromName(s: Bytes): (r: Result<ObjectType>)
    ensures r.Ok? <==> s in Names()
    ensures r.Ok? ==> TypeName(r.value) == s
    ensures r.Err? ==> r.error == Panic(UnknownTypeName)
  {
    if s == Ascii("commit") then Ok(Commit)
    else if s == Ascii("blob") then Ok(Blob)
    else if s == Ascii("tag") then Ok(Tag)
    else if s == Ascii("tree") then Ok(Tree)
    else Err(Panic(UnknownTypeName))
  }

  /** Reading a written name gives the type back, so the name mapping is
      injective. */
  lemma NameRoundTrip(t: ObjectType)
    ensures FromName(TypeName(t)) == Ok(t)
  {
    var c, b, g, r := Ascii("commit"), Ascii("blob"), Ascii("tag"), Ascii("tree");
    assert |c| == 6 && |b| == 4 && |g| == 3 && |r| == 4;
    assert b[0] != r[0];
  }

  lemma NameInjective(t: ObjectType, u: ObjectType)
    requires TypeName(t) == TypeName(u)
    ensures t == u
  {
    NameRoundTrip(t);
    NameRoundTrip(u);
  }
}
