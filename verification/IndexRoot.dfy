/** indexRoot: narrowing the index to a relative --repo-path must not leave the
    git root. Paths are Unix paths; the lexical functions are filepath's. */
module IndexRoot {
  // ------------------------------------------------------------ path segments

  function Split(s: string): (segments: seq<string>)
    ensures |segments| > 0
  {
    if s == "" then [""]
    else
      var rest := Split(s[1..]);
      if s[0] == '/' then [""] + rest else [[s[0]] + rest[0]] + rest[1..]
  }

  function Join(segments: seq<string>): string
    requires |segments| > 0
  {
    if |segments| == 1 then segments[0] else segments[0] + "/" + Join(segments[1..])
  }

  predicate NoSlash(s: string) {
    '/' !in s
  }

  /** A segment that names something: not empty, not "." and not "..". */
  predicate Name(s: string) {
    s != "" && s != "." && s != ".." && NoSlash(s)
  }

  predicate AllNames(segments: seq<string>) {
    forall i | 0 <= i < |segments| :: Name(segments[i])
  }

  /** The text of the clean absolute path with these segments. */
  function Text(path: seq<string>): string {
    if path == [] then "/" else "/" + Join(path)
  }

  // ----------------------------------------------------------- Clean and Rel

  /** One step of the lexical walk: ".." at the root stays at the root. */
  function Enter(path: seq<string>, segment: string): seq<string> {
    if segment == "" || segment == "." then path
    else if segment == ".." then (if path == [] then path else path[..|path| - 1])
    else path + [segment]
  }

  function Walk(path: seq<string>, segments: seq<string>): seq<string>
    decreases |segments|
  {
    if segments == [] then path else Walk(Enter(path, segments[0]), segments[1..])
  }

  /** filepath.Clean of an absolute path, as segments. */
  function Clean(text: string): seq<string> {
    Walk([], Split(text))
  }

  /** How many leading segments two paths share. */
  function Common(a: seq<string>, b: seq<string>): (n: nat)
    ensures n <= |a| && n <= |b| && a[..n] == b[..n]
    ensures n < |a| && n < |b| ==> a[n] != b[n]
  {
    if a == [] || b == [] || a[0] != b[0] then 0
    else
      var n := Common(a[1..], b[1..]);
      assert a[..n + 1] == [a[0]] + a[1..][..n] && b[..n + 1] == [b[0]] + b[1..][..n];
      n + 1
  }

  function Ups(n: nat): (s: seq<string>)
    ensures |s| == n && forall i | 0 <= i < n :: s[i] == ".."
  {
    if n == 0 then [] else [".."] + Ups(n - 1)
  }

  /** filepath.Rel between clean absolute paths. */
  function Rel(base: seq<string>, target: seq<string>): string {
    var n := Common(base, target);
    var segments := Ups(|base| - n) + target[n..];
    if segments == [] then "." else Join(segments)
  }

  predicate Escapes(rel: string) {
    rel == ".." || "../" <= rel
  }

  datatype Stat = Missing | NotADirectory | Directory

  datatype Result = Root | Inside(path: seq<string>) | Absolute | Escaping | Unusable

  /** indexRoot below a root with the given segments; `stat` is the file system. */
  function IndexRoot(root: seq<string>, repoPath: string, stat: seq<string> -> Stat): Result {
    if repoPath == "" then Root
    else if repoPath[0] == '/' then Absolute
    else
      var cleaned := Clean(Text(root) + "/" + repoPath);
      if Escapes(Rel(root, cleaned)) then Escaping
      else if stat(cleaned) == Directory then Inside(cleaned)
      else Unusable
  }

  // ------------------------------------------------------------------- lemmas

  lemma {:induction false} SplitOfConcat(a: string, b: string)
    ensures Split(a + "/" + b) == Split(a) + Split(b)
  {
    if a == "" {
      assert a + "/" + b == "/" + b;
      assert ("/" + b)[1..] == b;
    } else {
      assert (a + "/" + b)[1..] == a[1..] + "/" + b;
      SplitOfConcat(a[1..], b);
    }
  }

  lemma {:induction false} SplitOfName(s: string)
    requires NoSlash(s)
    ensures Split(s) == [s]
  {
    if s != "" {
      SplitOfName(s[1..]);
      assert s == [s[0]] + s[1..];
    }
  }

  lemma {:induction false} SplitOfJoin(segments: seq<string>)
    requires |segments| > 0 && forall i | 0 <= i < |segments| :: NoSlash(segments[i])
    ensures Split(Join(segments)) == segments
  {
    SplitOfName(segments[0]);
    if |segments| > 1 {
      SplitOfJoin(segments[1..]);
      SplitOfConcat(segments[0], Join(segments[1..]));
      assert segments == [segments[0]] + segments[1..];
    }
  }

  lemma {:induction false} WalkOfConcat(path: seq<string>, a: seq<string>, b: seq<string>)
    ensures Walk(path, a + b) == Walk(Walk(path, a), b)
    decreases |a|
  {
    if a == [] {
      assert a + b == b;
    } else {
      assert (a + b)[1..] == a[1..] + b;
      WalkOfConcat(Enter(path, a[0]), a[1..], b);
    }
  }

  lemma {:induction false} WalkOfNames(path: seq<string>, names: seq<string>)
    requires AllNames(names)
    ensures Walk(path, names) == path + names
    decreases |names|
  {
    if names != [] {
      WalkOfNames(path + [names[0]], names[1..]);
    }
  }

  /** A clean absolute path is the clean form of its own text. */
  lemma CleanOfText(root: seq<string>)
    requires AllNames(root)
    ensures Clean(Text(root)) == root
  {
    if root == [] {
      SplitOfConcat("", "");
      assert "" + "/" + "" == "/";
      assert Split("/") == ["", ""];
      assert Walk([], ["", ""]) == Walk([], ["", ""][1..]);
      assert ["", ""][1..] == [""];
    } else {
      SplitOfJoin(root);
      SplitOfConcat("", Join(root));
      assert "" + "/" + Join(root) == Text(root);
      WalkOfConcat([], [""], root);
      assert Split("") == [""];
      assert Walk([], [""]) == [];
      WalkOfNames([], root);
      assert [] + root == root;
    }
  }

  /** Joining is walking on from the root. */
  lemma CleanOfJoin(root: seq<string>, repoPath: string)
    requires AllNames(root)
    ensures Clean(Text(root) + "/" + repoPath) == Walk(root, Split(repoPath))
  {
    SplitOfConcat(Text(root), repoPath);
    WalkOfConcat([], Split(Text(root)), Split(repoPath));
    CleanOfText(root);
  }

  lemma {:induction false} SplitHasNoSlash(s: string)
    ensures forall i | 0 <= i < |Split(s)| :: NoSlash(Split(s)[i])
  {
    if s != "" {
      SplitHasNoSlash(s[1..]);
    }
  }

  /** Whatever is walked, a clean path stays clean. */
  lemma {:induction false} WalkStaysClean(path: seq<string>, segments: seq<string>)
    requires AllNames(path) && forall i | 0 <= i < |segments| :: NoSlash(segments[i])
    ensures AllNames(Walk(path, segments))
    decreases |segments|
  {
    if segments != [] {
      WalkStaysClean(Enter(path, segments[0]), segments[1..]);
    }
  }

  /** The text test looks at the first segment only. */
  lemma EscapesIffFirstIsUp(segments: seq<string>)
    requires |segments| > 0 && forall i | 0 <= i < |segments| :: NoSlash(segments[i])
    ensures Escapes(Join(segments)) <==> segments[0] == ".."
  {
    var s := Join(segments);
    if segments[0] == ".." {
      UpFirst(segments);
    } else if Escapes(s) {
      SplitOfJoin(segments);
      SplitOfEscaping(s);
    }
  }

  lemma UpFirst(segments: seq<string>)
    requires |segments| > 0 && segments[0] == ".."
    ensures Escapes(Join(segments))
  {
    hide Split;
    if |segments| > 1 {
      assert Join(segments) == ".." + "/" + Join(segments[1..]);
      hide Join;
      assert ".." + "/" == "../";
    }
  }

  lemma SplitOfEscaping(s: string)
    requires Escapes(s)
    ensures Split(s)[0] == ".."
  {
    SplitOfName("..");
    hide Split;
    if s != ".." {
      assert s == ".." + "/" + s[3..];
      SplitOfConcat("..", s[3..]);
    }
  }

  /** The lexical check refuses exactly the paths that do not lie below the root. */
  lemma EscapesIffOutside(root: seq<string>, cleaned: seq<string>)
    requires AllNames(root) && AllNames(cleaned)
    ensures Escapes(Rel(root, cleaned)) <==> !(root <= cleaned)
  {
    var n := Common(root, cleaned);
    var segments := Ups(|root| - n) + cleaned[n..];
    assert root <= cleaned <==> n == |root|;
    if segments != [] {
      assert forall i | 0 <= i < |segments| :: NoSlash(segments[i]);
      EscapesIffFirstIsUp(segments);
      assert n < |root| ==> segments[0] == "..";
      assert n == |root| ==> segments[0] == cleaned[n];
    }
  }

  /** Containment: an accepted path is the root followed by plain names; and a
      relative path is refused as escaping exactly when walking it from the root
      ends outside. */
  lemma AcceptedStaysInside(root: seq<string>, repoPath: string, stat: seq<string> -> Stat)
    requires AllNames(root)
    ensures match IndexRoot(root, repoPath, stat)
            case Root => repoPath == ""
            case Absolute => repoPath != "" && repoPath[0] == '/'
            case Escaping => !(root <= Walk(root, Split(repoPath)))
            case Unusable =>
              root <= Walk(root, Split(repoPath)) && stat(Walk(root, Split(repoPath))) != Directory
            case Inside(path) =>
              && path == Walk(root, Split(repoPath))
              && root <= path && AllNames(path[|root|..]) && stat(path) == Directory
  {
    hide Split, Join, Rel, Escapes, Text, Clean, Walk;
    if repoPath != "" && repoPath[0] != '/' {
      var cleaned := Walk(root, Split(repoPath));
      CleanOfJoin(root, repoPath);
      SplitHasNoSlash(repoPath);
      WalkStaysClean(root, Split(repoPath));
      EscapesIffOutside(root, cleaned);
    }
  }

  /** A name that merely begins with ".." is an ordinary name. */
  lemma DottedNamesPass(root: seq<string>, name: string, stat: seq<string> -> Stat)
    requires AllNames(root) && Name(name) && stat(root + [name]) == Directory
    ensures IndexRoot(root, name, stat) == Inside(root + [name])
  {
    SplitOfName(name);
    WalkOfNames(root, [name]);
    AcceptedStaysInside(root, name, stat);
  }

  /** Leaving the root and coming back is accepted. */
  lemma ThereAndBackPasses(root: seq<string>, stat: seq<string> -> Stat)
    requires AllNames(root) && root != [] && stat(root) == Directory
    ensures IndexRoot(root, "../" + root[|root| - 1], stat) == Inside(root)
  {
    var last := root[|root| - 1];
    assert "../" + last == ".." + "/" + last;
    SplitOfConcat("..", last);
    SplitOfName("..");
    SplitOfName(last);
    var up := root[..|root| - 1];
    assert Split("../" + last) == [".."] + [last];
    WalkOfConcat(root, [".."], [last]);
    assert Walk(root, [".."]) == up;
    WalkOfNames(up, [last]);
    assert up + [last] == root;
    AcceptedStaysInside(root, "../" + last, stat);
  }

  function Without(segments: seq<string>): seq<string> {
    if segments == [] then []
    else (if segments[0] == "" || segments[0] == "." then [] else [segments[0]]) + Without(segments[1..])
  }

  /** Empty and "." segments lead nowhere. */
  lemma {:induction false} DotsAreNothing(path: seq<string>, segments: seq<string>)
    ensures Walk(path, segments) == Walk(path, Without(segments))
    decreases |segments|
  {
    if segments != [] {
      DotsAreNothing(Enter(path, segments[0]), segments[1..]);
      var rest := Without(segments[1..]);
      assert ([] + rest) == rest && ([segments[0]] + rest)[1..] == rest;
    }
  }

  /** ".." undoes the name before it, and at the top it leads nowhere. */
  lemma UpUndoes(path: seq<string>, name: string, rest: seq<string>)
    requires Name(name)
    ensures Walk(path, [name, ".."] + rest) == Walk(path, rest)
    ensures Walk([], [".."] + rest) == Walk([], rest)
  {
    assert [name, ".."] + rest == [name] + ([".."] + rest);
    assert ([name] + ([".."] + rest))[1..] == [".."] + rest;
    assert ([".."] + rest)[1..] == rest;
    assert (path + [name])[..|path|] == path;
  }

  /** `./name` is the same place as `name`. */
  lemma DotSlashPasses(root: seq<string>, name: string, stat: seq<string> -> Stat)
    requires AllNames(root) && Name(name) && stat(root + [name]) == Directory
    ensures IndexRoot(root, "./" + name, stat) == Inside(root + [name])
  {
    assert "./" + name == "." + "/" + name;
    SplitOfConcat(".", name);
    SplitOfName(".");
    SplitOfName(name);
    DotsAreNothing(root, [".", name]);
    var dotted := [".", name];
    assert dotted[1..] == [name] && [name][1..] == [];
    assert Without([name]) == [name] + Without([]) == [name];
    assert Without(dotted) == [name];
    assert ["."] + [name] == dotted;
    WalkOfNames(root, [name]);
    AcceptedStaysInside(root, "./" + name, stat);
  }
}
