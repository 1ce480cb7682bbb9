/** References (`resolve_ref`, `create_ref`): files under the git directory
    that hold either an object hash or `ref: <path>` naming another
    reference, each followed by a newline.  The git directory is a map from
    a path relative to it to the file's contents. */
module Refs {
  import opened Bytes
  import opened Results

  type RefFiles = map<Bytes, Bytes>

  function RefPrefix(): Bytes
  {
    Ascii("ref: ")
  }

  function MainBranch(): Bytes
  {
    Ascii("refs/heads/main")
  }

  /** What a symbolic reference to a main branch that does not exist yet
      resolves to. */
  function NotInitialized(): Bytes
  {
    Ascii("Repo not initialized yet")
  }

  predicate EndsWithNewline(s: Bytes)
  {
    s != [] && s[|s| - 1] == NL
  }

  /** A file that resolves to its own contents: it ends in a newline and,
      without it, does not start with `ref: `. */
  predicate Direct(refs: RefFiles, p: Bytes)
  {
    p in refs && EndsWithNewline(refs[p]) && !HasPrefix(refs[p][..|refs[p]| - 1], RefPrefix())
  }

  /** `resolve_ref`: read the file (a missing file panics), strip one
      trailing newline (a missing one panics), then either return the
      contents or follow `ref: <path>`, except that a reference to an absent
      `refs/heads/main` gives the not-initialized text.  `fuel` bounds the
      chain of references followed. */
  function ResolveRef(refs: RefFiles, path: Bytes, fuel: nat): (r: Result<Bytes>)
    ensures path !in refs ==> r == Err(Panic(MissingRefFile))
    ensures path in refs && !EndsWithNewline(refs[path]) ==> r == Err(Panic(NoTrailingNewline))
    ensures Direct(refs, path) ==> r == Ok(refs[path][..|refs[path]| - 1])
    ensures r.Ok? ==>
      r.value == NotInitialized()
      || exists p :: Direct(refs, p) && r.value == refs[p][..|refs[p]| - 1]
    decreases fuel
  {
    if path !in refs then Err(Panic(MissingRefFile))
    else
      var content := refs[path];
      if !EndsWithNewline(content) then Err(Panic(NoTrailingNewline))
      else
        var stripped := content[..|content| - 1];
        if !HasPrefix(stripped, RefPrefix()) then
          assert Direct(refs, path);
          Ok(stripped)
        else
          var next := stripped[|RefPrefix()|..];
          if next == MainBranch() && next !in refs then Ok(NotInitialized())
          else if fuel == 0 then Err(RefDepthExceeded)
          else ResolveRef(refs, next, fuel - 1)
  }

  /** Following a symbolic reference: `ref: <next>` resolves as `next`
      does. */
  lemma FollowRef(refs: RefFiles, path: Bytes, next: Bytes, fuel: nat)
    requires path in refs && refs[path] == RefPrefix() + next + [NL]
    requires next != MainBranch() || next in refs
    ensures ResolveRef(refs, path, fuel + 1) == ResolveRef(refs, next, fuel)
  {
    var stripped := refs[path][..|refs[path]| - 1];
    assert stripped == RefPrefix() + next;
    assert stripped[..|RefPrefix()|] == RefPrefix();
    assert stripped[|RefPrefix()|..] == next;
  }

  /** Fuel only bounds the chain: a resolution that did not run out gives
      the same answer with more fuel. */
  lemma {:induction false} FuelMonotone(refs: RefFiles, path: Bytes, fuel: nat, more: nat)
    requires fuel <= more
    requires ResolveRef(refs, path, fuel) != Err(RefDepthExceeded)
    ensures ResolveRef(refs, path, more) == ResolveRef(refs, path, fuel)
    decreases fuel
  {
    if path in refs && EndsWithNewline(refs[path]) {
      var stripped := refs[path][..|refs[path]| - 1];
      if HasPrefix(stripped, RefPrefix()) {
        var next := stripped[|RefPrefix()|..];
        if !(next == MainBranch() && next !in refs) && fuel > 0 {
          FuelMonotone(refs, next, fuel - 1, more - 1);
        }
      }
    }
  }

  /** `HEAD` naming a main branch that holds a hash resolves to the hash;
      naming one that does not exist yet gives the not-initialized text. */
  lemma HeadResolves(refs: RefFiles, hash: Bytes)
    requires Ascii("HEAD") in refs && refs[Ascii("HEAD")] == RefPrefix() + MainBranch() + [NL]
    requires !HasPrefix(hash, RefPrefix())
    ensures MainBranch() in refs && refs[MainBranch()] == hash + [NL] ==> ResolveRef(refs, Ascii("HEAD"), 1) == Ok(hash)
    ensures MainBranch() !in refs ==> ResolveRef(refs, Ascii("HEAD"), 0) == Ok(NotInitialized())
  {
    var head := Ascii("HEAD");
    var stripped := refs[head][..|refs[head]| - 1];
    assert stripped == RefPrefix() + MainBranch();
    assert stripped[..|RefPrefix()|] == RefPrefix();
    assert stripped[|RefPrefix()|..] == MainBranch();
    if MainBranch() in refs && refs[MainBranch()] == hash + [NL] {
      assert (hash + [NL])[..|hash|] == hash;
      FollowRef(refs, head, MainBranch(), 0);
    }
  }

  // ---------------------------------------------------------------------
  // Creating tags

  function TagPath(name: Bytes): Bytes
  {
    Ascii("refs/tags/") + name
  }

  /** `create_ref` as written: the file `refs/tags/<name>` holds the hash,
      with no newline after it. */
  function CreateRef(refs: RefFiles, name: Bytes, hash: Bytes): (r: RefFiles)
    ensures TagPath(name) in r && r[TagPath(name)] == hash
    ensures forall p :: p in refs && p != TagPath(name) ==> p in r && r[p] == refs[p]
    ensures r.Keys == refs.Keys + {TagPath(name)}
  {
    refs[TagPath(name) := hash]
  }

  /** Resolving a tag `create_ref` wrote panics: the file lacks the newline
      `resolve_ref` strips. */
  lemma CreatedRefUnreadable(refs: RefFiles, name: Bytes, hash: Bytes, fuel: nat)
    requires !EndsWithNewline(hash)
    ensures ResolveRef(CreateRef(refs, name, hash), TagPath(name), fuel) == Err(Panic(NoTrailingNewline))
  {
  }

  /** `create_ref` writing the hash as a line, as every file `resolve_ref`
      reads must be. */
  function CreateRefLine(refs: RefFiles, name: Bytes, hash: Bytes): (r: RefFiles)
    ensures TagPath(name) in r && r[TagPath(name)] == hash + [NL]
    ensures forall p :: p in refs && p != TagPath(name) ==> p in r && r[p] == refs[p]
    ensures r.Keys == refs.Keys + {TagPath(name)}
  {
    refs[TagPath(name) := hash + [NL]]
  }

  /** A tag written as a line resolves to the hash it was given. */
  lemma CreatedRefResolves(refs: RefFiles, name: Bytes, hash: Bytes, fuel: nat)
    requires !HasPrefix(hash, RefPrefix())
    ensures ResolveRef(CreateRefLine(refs, name, hash), TagPath(name), fuel) == Ok(hash)
  {
    var r := CreateRefLine(refs, name, hash);
    assert r[TagPath(name)][..|hash|] == hash;
  }
}
