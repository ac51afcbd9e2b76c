/**
  The template renderer of src/construct.js.

  The file system is a value: a map from path to file content and a set of
  directory paths, compared as plain strings with `/` as the separator.
  Each template is a transition on it: the check gate, `{{ name }}`
  substitution into the destination and the template, creation of the
  intermediate directories below the working directory, and the
  create / overwrite / update / skip decision. A file operation that throws
  (reading or writing a directory, writing to the empty path) ends the whole
  run, keeping the changes made before it.
 */
module Construct {
  import opened JsValue
  import opened Answers
  import opened TypeCheck

  // ---------------------------------------------------------------------
  // The file system

  datatype Fs = Fs(files: map<string, string>, dirs: set<string>)

  /** No path is both a file and a directory. */
  predicate Valid(fs: Fs)
  {
    forall p :: p in fs.files ==> p !in fs.dirs
  }

  /** `fs.existsSync` */
  predicate Exists(fs: Fs, path: string)
  {
    path in fs.files || path in fs.dirs
  }

  /** `fs.readFileSync`: a directory (EISDIR) or a missing path gives an error. */
  function Read(fs: Fs, path: string): Option<string>
  {
    if path in fs.files then Some(fs.files[path]) else None
  }

  /**
    The directory part of a path: the text before its last separator, or
    `None` for a bare name, which lives in the working directory.
   */
  function ParentOf(path: string): Option<string>
    decreases |path|
  {
    if path == [] then None
    else if path[|path| - 1] == Sep then Some(path[..|path| - 1])
    else ParentOf(path[..|path| - 1])
  }

  /**
    A path `writeFileSync` can create or replace a file at: it names a file
    (it is not empty and does not end in the separator), it is not a
    directory, and its directory exists as a directory (a bare name is in the
    working directory, and an empty directory part is the file-system root).
   */
  predicate Writable(fs: Fs, path: string)
  {
    && path != "" && path[|path| - 1] != Sep
    && path !in fs.dirs
    && match ParentOf(path)
       case None => true
       case Some(dir) => dir == "" || dir in fs.dirs
  }

  /**
    `fs.writeFileSync`: it throws for a path that names no file (ENOENT,
    EISDIR), for a directory (EISDIR), and for a path whose directory is
    missing (ENOENT) or is a file (ENOTDIR); otherwise the file gets the
    content and nothing else changes.
   */
  function Write(fs: Fs, path: string, content: string): Option<Fs>
  {
    if Writable(fs, path) then Some(Fs(fs.files[path := content], fs.dirs)) else None
  }

  /**
    Reading after a successful write: the written path reads back the
    content, and every other path reads as it did before.
   */
  lemma ReadAfterWrite(fs: Fs, path: string, content: string, other: string)
    requires Write(fs, path, content).Some?
    ensures Read(Write(fs, path, content).value, path) == Some(content)
    ensures other != path ==> Read(Write(fs, path, content).value, other) == Read(fs, other)
  {
  }

  /** Reading a directory throws, and so does writing one. */
  lemma DirectoryNotFile(fs: Fs, path: string, content: string)
    requires Valid(fs) && path in fs.dirs
    ensures Read(fs, path).None?
    ensures Write(fs, path, content).None?
  {
  }

  /** A path below a directory names its file there: the directory part of `dir/name` is `dir`. */
  lemma {:induction false} ParentOfChild(dir: string, name: string)
    requires Sep !in name
    ensures ParentOf(dir + [Sep] + name) == Some(dir)
    decreases |name|
  {
    var p := dir + [Sep] + name;
    if name == [] {
      assert p[..|p| - 1] == dir;
    } else {
      var init := name[..|name| - 1];
      assert p[|p| - 1] == name[|name| - 1];
      assert p[..|p| - 1] == dir + [Sep] + init;
      assert Sep !in init by {
        forall c | c in init ensures c != Sep { assert c in name; }
      }
      ParentOfChild(dir, init);
    }
  }

  /** Where a run stands: the file system, and whether no operation has thrown. */
  datatype Outcome = Outcome(fs: Fs, ok: bool)

  // ---------------------------------------------------------------------
  // Paths

  const Sep: char := '/'

  /** `s.split(sep)` with a one-character separator. */
  function Split(s: string, sep: char): (r: seq<string>)
    ensures |r| >= 1
    ensures forall i :: 0 <= i < |r| ==> sep !in r[i]
    decreases |s|
  {
    if s == [] then [""]
    else
      var rest := Split(s[1..], sep);
      if s[0] == sep then [""] + rest
      else [[s[0]] + rest[0]] + rest[1..]
  }

  /** Joining the pieces with the separator gives the string back. */
  lemma {:induction false} JoinSplit(s: string, sep: char)
    ensures JoinWith(Split(s, sep), [sep]) == s
    decreases |s|
  {
    if s != [] {
      JoinSplit(s[1..], sep);
      var rest := Split(s[1..], sep);
      if s[0] == sep {
        assert ([""] + rest)[1..] == rest;
      } else if |rest| > 1 {
        assert ([[s[0]] + rest[0]] + rest[1..])[1..] == rest[1..];
        assert JoinWith(rest, [sep]) == rest[0] + [sep] + JoinWith(rest[1..], [sep]);
      }
    }
  }

  /** A piece without the separator splits to itself. */
  lemma {:induction false} SplitPlain(p: string, sep: char)
    requires sep !in p
    ensures Split(p, sep) == [p]
    decreases |p|
  {
    if p != [] {
      SplitPlain(p[1..], sep);
      assert [p[0]] + p[1..] == p;
    }
  }

  /** A piece without the separator, then the separator, splits off as the first piece. */
  lemma {:induction false} SplitHead(p: string, sep: char, t: string)
    requires sep !in p
    ensures Split(p + [sep] + t, sep) == [p] + Split(t, sep)
    decreases |p|
  {
    if p == [] {
      assert p + [sep] + t == [sep] + t;
      assert ([sep] + t)[1..] == t;
    } else {
      assert (p + [sep] + t)[1..] == p[1..] + [sep] + t;
      SplitHead(p[1..], sep, t);
      assert [p[0]] + p[1..] == p;
    }
  }

  /** Splitting pieces that hold no separator, once joined, gives them back. */
  lemma {:induction false} SplitJoin(parts: seq<string>, sep: char)
    requires |parts| >= 1
    requires forall i :: 0 <= i < |parts| ==> sep !in parts[i]
    ensures Split(JoinWith(parts, [sep]), sep) == parts
    decreases |parts|
  {
    if |parts| == 1 {
      SplitPlain(parts[0], sep);
    } else {
      SplitJoin(parts[1..], sep);
      SplitHead(parts[0], sep, JoinWith(parts[1..], [sep]));
    }
  }

  /**
    `filepath.replace(rootDirectory, '')`, for a working directory that is
    a prefix of the path; any other path is kept whole.
   */
  function StripRoot(filepath: string, root: string): string
  {
    if root <= filepath then filepath[|root|..] else filepath
  }

  /**
    The directory names `ensureDirectories` walks:
    `.split(path.sep).slice(1, -1)` of the path below the working directory.
   */
  function Directories(filepath: string, root: string): (r: seq<string>)
  {
    var parts := Split(StripRoot(filepath, root), Sep);
    if |parts| <= 2 then [] else parts[1..|parts| - 1]
  }

  /** `path.resolve(previousPath, directory)` for one name without a separator. */
  function Resolve(base: string, name: string): string
  {
    if name == "" then base else base + [Sep] + name
  }

  /** The paths `ensureDirectories` visits, from the root downward. */
  function Chain(base: string, names: seq<string>): (r: seq<string>)
    ensures |r| == |names|
    decreases |names|
  {
    if names == [] then [] else [Resolve(base, names[0])] + Chain(Resolve(base, names[0]), names[1..])
  }

  /**
    The directories of a path below the working directory: every proper
    prefix of its names, that is every intermediate directory and not the
    file itself.
   */
  lemma DirectoriesBelowRoot(root: string, names: seq<string>)
    requires |names| >= 1
    requires forall i :: 0 <= i < |names| ==> Sep !in names[i]
    ensures Directories(root + [Sep] + JoinWith(names, [Sep]), root) == names[..|names| - 1]
  {
    var path := root + [Sep] + JoinWith(names, [Sep]);
    StripRootBelow(root, names);
    SplitLeadingSeparator(names);
    DirectoriesOfLeadingSeparator(path, root, names);
  }

  /** A path that splits into an empty first piece and `names` walks all the names but the last. */
  lemma DirectoriesOfLeadingSeparator(path: string, root: string, names: seq<string>)
    requires |names| >= 1
    requires Split(StripRoot(path, root), Sep) == [""] + names
    ensures Directories(path, root) == names[..|names| - 1]
  {
    DirectoriesFromParts(path, root, [""] + names);
    if |names| == 1 {
      assert names[..0] == [];
    } else {
      InnerOfPrefixed("", names);
    }
  }

  /** The pieces strictly inside `[x] + s` are all of `s` but its last. */
  lemma InnerOfPrefixed<T>(x: T, s: seq<T>)
    requires |s| >= 2
    ensures ([x] + s)[1..|s|] == s[..|s| - 1]
  {
    assert forall i :: 0 <= i < |s| - 1 ==> ([x] + s)[1..|s|][i] == s[i];
  }

  /** Below the working directory, the path keeps its leading separator. */
  lemma StripRootBelow(root: string, names: seq<string>)
    ensures StripRoot(root + [Sep] + JoinWith(names, [Sep]), root) == [Sep] + JoinWith(names, [Sep])
  {
    AppendAssociates(root, [Sep], JoinWith(names, [Sep]));
    StripRootPrefix(root, [Sep] + JoinWith(names, [Sep]));
  }

  /** A path with a leading separator splits into an empty piece and its names. */
  lemma SplitLeadingSeparator(names: seq<string>)
    requires |names| >= 1
    requires forall i :: 0 <= i < |names| ==> Sep !in names[i]
    ensures Split([Sep] + JoinWith(names, [Sep]), Sep) == [""] + names
  {
    var whole := [""] + names;
    JoinLeadingSeparator(names);
    assert forall i :: 1 <= i < |whole| ==> whole[i] == names[i - 1];
    SplitJoin(whole, Sep);
  }

  /** `Directories` drops the first and the last piece of the split path. */
  lemma DirectoriesFromParts(path: string, root: string, parts: seq<string>)
    requires Split(StripRoot(path, root), Sep) == parts
    ensures Directories(path, root) == if |parts| <= 2 then [] else parts[1..|parts| - 1]
  {
  }

  /** A path that starts with the separator joins an empty first piece. */
  lemma JoinLeadingSeparator(names: seq<string>)
    requires |names| >= 1
    ensures JoinWith([""] + names, [Sep]) == [Sep] + JoinWith(names, [Sep])
  {
    JoinCons("", names, [Sep]);
    assert "" + [Sep] == [Sep];
  }

  /** The working directory is stripped from a path that starts with it. */
  lemma StripRootPrefix(root: string, below: string)
    ensures StripRoot(root + below, root) == below
  {
    assert root <= root + below;
    assert (root + below)[|root|..] == below;
  }

  /**
    A path that does not start with the working directory keeps its first
    piece, which `slice(1, -1)` then drops: for a relative destination the
    first directory is skipped and the rest are created directly below the
    working directory.
   */
  lemma DirectoriesOfOtherPath(root: string, names: seq<string>)
    requires |names| >= 1
    requires forall i :: 0 <= i < |names| ==> Sep !in names[i]
    requires !(root <= JoinWith(names, [Sep]))
    ensures Directories(JoinWith(names, [Sep]), root) == if |names| <= 2 then [] else names[1..|names| - 1]
  {
    var path := JoinWith(names, [Sep]);
    assert StripRoot(path, root) == path;
    SplitJoin(names, Sep);
    DirectoriesFromParts(path, root, names);
  }

  /**
    The chain below `base` for non-empty names: the `k`-th path is `base`
    followed by the first `k + 1` names.
   */
  lemma {:induction false} ChainPaths(base: string, names: seq<string>)
    requires forall i :: 0 <= i < |names| ==> names[i] != ""
    ensures forall k :: 0 <= k < |names| ==> Chain(base, names)[k] == base + [Sep] + JoinWith(names[..k + 1], [Sep])
    decreases |names|
  {
    if names != [] {
      var next := Resolve(base, names[0]);
      ChainPaths(next, names[1..]);
      forall k | 0 <= k < |names|
        ensures Chain(base, names)[k] == base + [Sep] + JoinWith(names[..k + 1], [Sep])
      {
        if k > 0 {
          var tail := names[1..][..k];
          var rest := JoinWith(tail, [Sep]);
          assert names[..k + 1] == [names[0]] + tail;
          JoinCons(names[0], tail, [Sep]);
          assert Chain(base, names)[k] == Chain(next, names[1..])[k - 1];
          assert Chain(base, names)[k] == base + [Sep] + names[0] + [Sep] + rest;
          AppendAssociates(base + [Sep], names[0], [Sep] + rest);
          AppendAssociates(base + [Sep] + names[0], [Sep], rest);
          AppendAssociates(names[0], [Sep], rest);
        } else {
          assert names[..1] == [names[0]];
        }
      }
    }
  }

  /** Joining a list with at least two parts: all but the last joined, the separator, then the last. */
  lemma {:induction false} JoinSnoc(parts: seq<string>, sep: string)
    requires |parts| >= 2
    ensures JoinWith(parts, sep) == JoinWith(parts[..|parts| - 1], sep) + sep + parts[|parts| - 1]
    decreases |parts|
  {
    var n := |parts|;
    var init := parts[..n - 1];
    if n == 2 {
      assert init == [parts[0]] && parts[1..] == [parts[1]];
    } else {
      JoinSnoc(parts[1..], sep);
      assert init[1..] == parts[1..][..n - 2];
      assert JoinWith(init, sep) == init[0] + sep + JoinWith(init[1..], sep);
      AppendAssociates(parts[0] + sep, JoinWith(init[1..], sep), sep + parts[n - 1]);
      AppendAssociates(JoinWith(init, sep), sep, parts[n - 1]);
      AppendAssociates(JoinWith(init[1..], sep), sep, parts[n - 1]);
    }
  }

  /** Joining a list with at least two parts: the first, the separator, then the rest joined. */
  lemma JoinCons(head: string, tail: seq<string>, sep: string)
    requires tail != []
    ensures JoinWith([head] + tail, sep) == head + sep + JoinWith(tail, sep)
  {
    assert ([head] + tail)[1..] == tail;
  }

  // ---------------------------------------------------------------------
  // Substitution

  /** The length of the leading run of whitespace (`\s*`, greedy). */
  function SkipWs(s: string): (n: nat)
    ensures n <= |s|
  {
    if s != [] && IsWhitespace(s[0]) then 1 + SkipWs(s[1..]) else 0
  }

  /** `SkipWs` counts the leading run of whitespace: all of it, and no more. */
  lemma {:induction false} SkipWsRun(s: string)
    ensures forall i :: 0 <= i < SkipWs(s) ==> IsWhitespace(s[i])
    ensures SkipWs(s) == |s| || !IsWhitespace(s[SkipWs(s)])
    decreases |s|
  {
    if s != [] && IsWhitespace(s[0]) {
      SkipWsRun(s[1..]);
      forall i | 1 <= i < SkipWs(s) ensures IsWhitespace(s[i]) {
        assert s[i] == s[1..][i - 1];
      }
    }
  }

  /**
    The length of a token `\{\{\s*name\s*\}\}` at the start of `s`, if one
    starts there.
   */
  function MatchToken(s: string, name: string): Option<nat>
  {
    if |s| >= 2 && s[0] == '{' && s[1] == '{' then
      var a := 2 + SkipWs(s[2..]);
      if name <= s[a..] then
        var b := a + |name| + SkipWs(s[a + |name|..]);
        if |s| >= b + 2 && s[b] == '}' && s[b + 1] == '}' then Some(b + 2) else None
      else None
    else None
  }

  /**
    `template.replace(regex, value)` with the global flag: scanning from the
    left, every token for `name` is replaced by `value`, and the scan goes on
    after the replaced token.
   */
  function ReplaceAll(s: string, name: string, value: string): string
    decreases |s|
  {
    if s == [] then []
    else
      var m := MatchToken(s, name);
      if m.Some? && 0 < m.value <= |s| then value + ReplaceAll(s[m.value..], name, value)
      else [s[0]] + ReplaceAll(s[1..], name, value)
  }

  /** Text where no token for `name` starts anywhere. */
  predicate NoToken(s: string, name: string)
  {
    forall i :: 0 <= i <= |s| ==> MatchToken(s[i..], name).None?
  }

  /** Text without a token for the name is left as it is. */
  lemma {:induction false} ReplaceAllNoToken(s: string, name: string, value: string)
    requires NoToken(s, name)
    ensures ReplaceAll(s, name, value) == s
    decreases |s|
  {
    if s != [] {
      assert MatchToken(s[0..], name).None?;
      assert s[0..] == s;
      assert forall i :: 0 <= i <= |s[1..]| ==> s[1..][i..] == s[i + 1..];
      ReplaceAllNoToken(s[1..], name, value);
    }
  }

  /** Text without `{` holds no token at all. */
  lemma NoBraceNoToken(s: string, name: string)
    requires '{' !in s
    ensures NoToken(s, name)
  {
    forall i | 0 <= i <= |s| ensures MatchToken(s[i..], name).None? {
      if |s[i..]| >= 2 {
        assert s[i..][0] == s[i];
      }
    }
  }

  /** A token: `{{`, whitespace, the name, whitespace, `}}`. */
  function Token(name: string, before: string, after: string): string
  {
    "{{" + (before + (name + (after + "}}")))
  }

  /**
    Text before which no `{` occurs, then a token for the name (the name not
    starting with whitespace), then any text: the token becomes the value
    and the scan goes on after it.
   */
  lemma ReplaceAllToken(pre: string, name: string, before: string, after: string, post: string, value: string)
    requires '{' !in pre
    requires forall i :: 0 <= i < |before| ==> IsWhitespace(before[i])
    requires forall i :: 0 <= i < |after| ==> IsWhitespace(after[i])
    requires name == [] || !IsWhitespace(name[0])
    ensures ReplaceAll(pre + Token(name, before, after) + post, name, value)
         == pre + value + ReplaceAll(post, name, value)
  {
    var tok := Token(name, before, after);
    TokenMatches(name, before, after, post);
    ReplaceAllPrefix(pre, tok + post, name, value);
    AppendAssociates(pre, tok, post);
    assert (tok + post)[|tok|..] == post;
    AppendAssociates(pre, value, ReplaceAll(post, name, value));
  }

  /** A token at the start of the text matches with exactly its own length. */
  lemma TokenMatches(name: string, before: string, after: string, post: string)
    requires forall i :: 0 <= i < |before| ==> IsWhitespace(before[i])
    requires forall i :: 0 <= i < |after| ==> IsWhitespace(after[i])
    requires name == [] || !IsWhitespace(name[0])
    ensures var t := Token(name, before, after);
      MatchToken(t + post, name) == Some(|t|)
  {
    TokenShape(name, before, after, post);
    if name == [] {
      EmptyTokenMatchesShaped(Token(name, before, after) + post, name, before, after, post);
    } else {
      TokenMatchesShaped(Token(name, before, after) + post, name, before, after, post);
    }
  }

  /** The same, on a text whose pieces are already known, for a non-empty name. */
  lemma TokenMatchesShaped(s: string, name: string, before: string, after: string, post: string)
    requires forall i :: 0 <= i < |before| ==> IsWhitespace(before[i])
    requires forall i :: 0 <= i < |after| ==> IsWhitespace(after[i])
    requires name != [] && !IsWhitespace(name[0])
    requires |s| == |before| + |name| + |after| + 4 + |post|
    requires s[..2] == "{{"
    requires s[2..] == before + (name + (after + ("}}" + post)))
    requires s[2 + |before|..] == name + (after + ("}}" + post))
    requires s[2 + |before| + |name|..] == after + ("}}" + post)
    requires s[2 + |before| + |name| + |after|..] == "}}" + post
    ensures MatchToken(s, name) == Some(|before| + |name| + |after| + 4)
  {
    var closing := "}}" + post;
    var a := 2 + |before|;
    var b := 2 + |before| + |name| + |after|;
    assert s[0] == '{' && s[1] == '{' by {
      assert s[..2][0] == s[0] && s[..2][1] == s[1];
    }
    assert SkipWs(s[2..]) == |before| by {
      OpeningSkip(name, before, after, closing);
    }
    assert SkipWs(s[a + |name|..]) == |after| by {
      SkipWsOver(after, closing);
    }
    assert s[b] == '}' && s[b + 1] == '}' by {
      assert s[b..][0] == s[b] && s[b..][1] == s[b + 1];
    }
    assert name <= s[a..];
    MatchTokenAt(s, name, a, b, |before| + |name| + |after| + 4);
  }

  /** The same for the empty name: the whitespace inside the braces is skipped in one run. */
  lemma EmptyTokenMatchesShaped(s: string, name: string, before: string, after: string, post: string)
    requires forall i :: 0 <= i < |before| ==> IsWhitespace(before[i])
    requires forall i :: 0 <= i < |after| ==> IsWhitespace(after[i])
    requires name == []
    requires |s| == |before| + |name| + |after| + 4 + |post|
    requires s[..2] == "{{"
    requires s[2..] == before + (name + (after + ("}}" + post)))
    requires s[2 + |before| + |name| + |after|..] == "}}" + post
    ensures MatchToken(s, name) == Some(|before| + |name| + |after| + 4)
  {
    var closing := "}}" + post;
    var b := 2 + |before| + |after|;
    assert s[0] == '{' && s[1] == '{' by {
      assert s[..2][0] == s[0] && s[..2][1] == s[1];
    }
    assert SkipWs(s[2..]) == |before| + |after| by {
      OpeningSkip([], before, after, closing);
    }
    assert SkipWs(s[b..]) == 0;
    assert s[b] == '}' && s[b + 1] == '}' by {
      assert s[b..][0] == s[b] && s[b..][1] == s[b + 1];
    }
    MatchTokenAt(s, [], b, b, |before| + |after| + 4);
  }

  /** The whitespace skipped after the opening braces runs up to the name (or, for an empty name, up to the closing braces). */
  lemma OpeningSkip(name: string, before: string, after: string, closing: string)
    requires forall i :: 0 <= i < |before| ==> IsWhitespace(before[i])
    requires forall i :: 0 <= i < |after| ==> IsWhitespace(after[i])
    requires name == [] || !IsWhitespace(name[0])
    requires |closing| >= 1 && closing[0] == '}'
    ensures SkipWs(before + (name + (after + closing))) == |before| + (if name == [] then |after| else 0)
  {
    SkipWsOver(before, name + (after + closing));
    if name == [] {
      assert name + (after + closing) == after + closing;
      SkipWsOver(after, closing);
    } else {
      assert (name + (after + closing))[0] == name[0];
    }
  }

  /** A token followed by text, read from the opening braces onward. */
  lemma TokenShape(name: string, before: string, after: string, post: string)
    ensures (Token(name, before, after) + post)[..2] == "{{"
    ensures (Token(name, before, after) + post)[2..] == before + (name + (after + ("}}" + post)))
    ensures (Token(name, before, after) + post)[2 + |before|..] == name + (after + ("}}" + post))
    ensures (Token(name, before, after) + post)[2 + |before| + |name|..] == after + ("}}" + post)
    ensures (Token(name, before, after) + post)[2 + |before| + |name| + |after|..] == "}}" + post
    ensures |Token(name, before, after)| == |before| + |name| + |after| + 4
  {
    var w := after + "}}";
    var z := name + w;
    var y := before + z;
    AppendAssociates("{{", y, post);
    AppendAssociates(before, z, post);
    AppendAssociates(name, w, post);
    AppendAssociates(after, "}}", post);
  }

  /** The match of `MatchToken`, stated by where the name and the closing braces sit. */
  lemma MatchTokenAt(s: string, name: string, a: nat, b: nat, n: nat)
    requires |s| >= 2 && s[0] == '{' && s[1] == '{'
    requires a == 2 + SkipWs(s[2..]) && name <= s[a..]
    requires b == a + |name| + SkipWs(s[a + |name|..])
    requires |s| >= b + 2 && s[b] == '}' && s[b + 1] == '}'
    requires n == b + 2
    ensures MatchToken(s, name) == Some(n)
  {
    var r := MatchToken(s, name);
    assert r == (if |s| >= b + 2 && s[b] == '}' && s[b + 1] == '}' then Some(b + 2) else None);
  }

  /** Skipping whitespace goes over a leading run of whitespace and carries on in what follows it. */
  lemma {:induction false} SkipWsOver(ws: string, rest: string)
    requires forall i :: 0 <= i < |ws| ==> IsWhitespace(ws[i])
    ensures SkipWs(ws + rest) == |ws| + SkipWs(rest)
    decreases |ws|
  {
    if ws != [] {
      assert (ws + rest)[1..] == ws[1..] + rest;
      SkipWsOver(ws[1..], rest);
    } else {
      assert ws + rest == rest;
    }
  }

  /** A prefix without `{` is copied unchanged by the scan. */
  lemma {:induction false} ReplaceAllPrefix(pre: string, s: string, name: string, value: string)
    requires '{' !in pre
    ensures ReplaceAll(pre + s, name, value) == pre + ReplaceAll(s, name, value)
    decreases |pre|
  {
    if pre == [] {
      assert pre + s == s;
    } else {
      var t := pre + s;
      assert t[0] == pre[0] && t[1..] == pre[1..] + s;
      ReplaceAllSkips(t, name, value);
      assert '{' !in pre[1..] by {
        forall c | c in pre[1..] ensures c != '{' { assert c in pre; }
      }
      ReplaceAllPrefix(pre[1..], s, name, value);
      assert [pre[0]] + pre[1..] == pre;
      AppendAssociates([pre[0]], pre[1..], ReplaceAll(s, name, value));
    }
  }

  /** A character other than `{` starts no token and is copied. */
  lemma ReplaceAllSkips(t: string, name: string, value: string)
    requires t != [] && t[0] != '{'
    ensures ReplaceAll(t, name, value) == [t[0]] + ReplaceAll(t[1..], name, value)
  {
    assert MatchToken(t, name).None?;
  }

  /** `replaceAnswer`: every token for the answer's name becomes `String(answer)`. */
  function ReplaceAnswer(template: string, answer: Record): string
  {
    ReplaceAll(template, answer.name, ToText(answer.answer))
  }

  /** `answers.reduce(replaceAnswer, template)`: the answers applied in list order. */
  function Render(template: string, answers: seq<Record>): string
    decreases |answers|
  {
    if answers == [] then template else Render(ReplaceAnswer(template, answers[0]), answers[1..])
  }

  /** Text without a token for any answer's name comes out of the fold unchanged. */
  lemma {:induction false} RenderNoTokens(template: string, answers: seq<Record>)
    requires forall i :: 0 <= i < |answers| ==> NoToken(template, answers[i].name)
    ensures Render(template, answers) == template
    decreases |answers|
  {
    if answers != [] {
      ReplaceAllNoToken(template, answers[0].name, ToText(answers[0].answer));
      assert forall i :: 0 <= i < |answers[1..]| ==> answers[1..][i] == answers[i + 1];
      RenderNoTokens(template, answers[1..]);
    }
  }

  /**
    One answer: a text with one token for its name, and no other brace,
    renders with the token replaced by the answer's text.
   */
  lemma RenderOneToken(pre: string, before: string, after: string, post: string, answer: Record)
    requires '{' !in pre && '{' !in post
    requires forall i :: 0 <= i < |before| ==> IsWhitespace(before[i])
    requires forall i :: 0 <= i < |after| ==> IsWhitespace(after[i])
    requires answer.name == [] || !IsWhitespace(answer.name[0])
    ensures Render(pre + Token(answer.name, before, after) + post, [answer]) == pre + ToText(answer.answer) + post
  {
    var value := ToText(answer.answer);
    ReplaceAllToken(pre, answer.name, before, after, post, value);
    NoBraceNoToken(post, answer.name);
    ReplaceAllNoToken(post, answer.name, value);
    assert [answer][1..] == [];
  }

  // ---------------------------------------------------------------------
  // Templates

  /** A `check` function: decides from the answers whether the template is used. */
  type CheckFn = seq<Record> -> Value

  /** An update method: `(existingContent, renderedTemplate)` to the new content. */
  type UpdateFn = (string, string) -> string

  /**
    A template object. `destination` and `template` are any values (only a
    non-empty string is rendered); an absent `overwrite` is `undefined`.
   */
  datatype Template = Template(
    destination: Value,
    template: Value,
    check: Prop<CheckFn>,
    overwrite: Value,
    update: Prop<UpdateFn>)

  /** The updaters registry: a property holding a function, or some other value. */
  type Registry = map<string, Prop<UpdateFn>>

  /** `checkCreateFile`: the result of a `check` function, or `true` without one. */
  function CheckCreateFile(t: Template, answers: seq<Record>): Value
  {
    match t.check
    case Call(f) => f(answers)
    case _ => Bool(true)
  }

  /**
    `getUpdateMethod`: a function `update` is itself the method; a string
    names a registry entry, used only when it holds a function; anything
    else has no method.
   */
  function GetUpdateMethod(update: Prop<UpdateFn>, registry: Registry): Option<UpdateFn>
  {
    match update
    case Call(f) => Some(f)
    case Plain(Str(name)) =>
      if name in registry && registry[name].Call? then Some(registry[name].f) else None
    case _ => None
  }

  /**
    `getTemplate`: with `isFile`, a path that exists is replaced by the
    content of that file (reading a directory throws); otherwise the string
    is the template itself.
   */
  function GetTemplate(template: string, isFile: bool, fs: Fs): (r: Option<string>)
    ensures !isFile || !Exists(fs, template) ==> r == Some(template)
    ensures isFile && template in fs.files ==> r == Some(fs.files[template])
    ensures r.None? <==> isFile && template in fs.dirs && template !in fs.files
  {
    if isFile && Exists(fs, template) then Read(fs, template) else Some(template)
  }

  /**
    `replace`: a non-empty string template is resolved and rendered with
    every answer; anything else renders to the empty string.
   */
  function Replace(template: Value, answers: seq<Record>, isFile: bool, fs: Fs): Option<string>
  {
    if template.Str? && template.s != "" then
      var source := GetTemplate(template.s, isFile, fs);
      if source.Some? then Some(Render(source.value, answers)) else None
    else Some("")
  }

  // ---------------------------------------------------------------------
  // Creating directories and files

  /**
    The `reduce` of `ensureDirectories` from `base`: each path on the chain
    that does not exist yet is made a directory; making one below a file
    throws (ENOTDIR) and ends the walk.
   */
  function MakeDirs(fs: Fs, base: string, names: seq<string>): (r: Outcome)
    ensures r.fs.files == fs.files
    ensures fs.dirs <= r.fs.dirs
    decreases |names|
  {
    if names == [] then Outcome(fs, true)
    else
      var p := Resolve(base, names[0]);
      if Exists(fs, p) then MakeDirs(fs, p, names[1..])
      else if base in fs.files then Outcome(fs, false)
      else MakeDirs(Fs(fs.files, fs.dirs + {p}), p, names[1..])
  }

  /** `ensureDirectories(filepath)` with the working directory `root`. */
  function EnsureDirs(fs: Fs, filepath: string, root: string): (r: Outcome)
    ensures r.fs.files == fs.files
  {
    MakeDirs(fs, root, Directories(filepath, root))
  }

  /**
    `update`: render the template as a file, read the existing destination,
    and pass both to the update method; without a method the existing
    content is kept. Reading a directory throws.
   */
  function Update(fs: Fs, t: Template, answers: seq<Record>, destination: string, registry: Registry): (r: Option<string>)
  {
    var replacement := Replace(t.template, answers, true, fs);
    var existing := Read(fs, destination);
    if replacement.None? || existing.None? then None
    else
      match GetUpdateMethod(t.update, registry)
      case Some(apply) => Some(apply(existing.value, replacement.value))
      case None => Some(existing.value)
  }

  /** Write `output` to the destination when it was produced; an error ends the run. */
  function WriteResult(fs: Fs, destination: string, output: Option<string>): (r: Outcome)
  {
    if output.None? then Outcome(fs, false)
    else
      var written := Write(fs, destination, output.value);
      if written.Some? then Outcome(written.value, true) else Outcome(fs, false)
  }

  /**
    `create`: render the destination, make its directories, then write the
    rendered template when the destination is missing or `overwrite` is
    truthy, else the update result when `update` is truthy, else nothing.
   */
  function Created(fs: Fs, t: Template, answers: seq<Record>, root: string, registry: Registry): (r: Outcome)
  {
    var destination := Replace(t.destination, answers, false, fs).value;
    CreatedAfter(EnsureDirs(fs, destination, root), t, answers, destination, registry)
  }

  /**
    The second half of `create`, once the directories are made (or have
    failed): the write decision and its result.
   */
  function CreatedAfter(made: Outcome, t: Template, answers: seq<Record>, destination: string, registry: Registry): Outcome
  {
    if !made.ok then made
    else if !Exists(made.fs, destination) || Truthy(t.overwrite) then
      WriteResult(made.fs, destination, Replace(t.template, answers, true, made.fs))
    else if t.update.IsTruthy() then
      WriteResult(made.fs, destination, Update(made.fs, t, answers, destination, registry))
    else made
  }

  /** The destination path of a template, rendered without looking at the file system. */
  function Destination(t: Template, answers: seq<Record>): string
  {
    if t.destination.Str? then Render(t.destination.s, answers) else ""
  }

  /**
    The exported loop: every template in order, skipping those whose check
    is falsy; the first error ends the run.
   */
  function ConstructAll(fs: Fs, templates: seq<Template>, answers: seq<Record>, root: string, registry: Registry): (r: Outcome)
    decreases |templates|
  {
    if templates == [] then Outcome(fs, true)
    else if !Truthy(CheckCreateFile(templates[0], answers)) then ConstructAll(fs, templates[1..], answers, root, registry)
    else
      var made := Created(fs, templates[0], answers, root, registry);
      if made.ok then ConstructAll(made.fs, templates[1..], answers, root, registry) else made
  }

  // ---------------------------------------------------------------------
  // Properties of directory creation

  /**
    A walk that does not throw leaves every path on the chain existing, and
    has added exactly the chain paths that were not files: a directory that
    already existed is not made again, and nothing else is made.
   */
  lemma {:induction false} MakeDirsCreates(fs: Fs, base: string, names: seq<string>)
    requires MakeDirs(fs, base, names).ok
    ensures MakeDirs(fs, base, names).fs.dirs == fs.dirs + (set p | p in Chain(base, names) && p !in fs.files)
    ensures forall p :: p in Chain(base, names) ==> Exists(MakeDirs(fs, base, names).fs, p)
    decreases |names|
  {
    if names != [] {
      var p := Resolve(base, names[0]);
      var rest := names[1..];
      assert Chain(base, names) == [p] + Chain(p, rest);
      if Exists(fs, p) {
        MakeDirsCreates(fs, p, rest);
      } else {
        var next := Fs(fs.files, fs.dirs + {p});
        MakeDirsCreates(next, p, rest);
      }
    }
  }

  /** The walk throws only where a path on the way down is a file. */
  lemma {:induction false} MakeDirsSucceeds(fs: Fs, base: string, names: seq<string>)
    requires base !in fs.files
    requires forall p :: p in Chain(base, names) ==> p !in fs.files
    ensures MakeDirs(fs, base, names).ok
    decreases |names|
  {
    if names != [] {
      var p := Resolve(base, names[0]);
      assert Chain(base, names) == [p] + Chain(p, names[1..]);
      if Exists(fs, p) {
        MakeDirsSucceeds(fs, p, names[1..]);
      } else {
        MakeDirsSucceeds(Fs(fs.files, fs.dirs + {p}), p, names[1..]);
      }
    }
  }

  /** Making directories never turns a file into a directory. */
  lemma {:induction false} MakeDirsValid(fs: Fs, base: string, names: seq<string>)
    requires Valid(fs)
    ensures Valid(MakeDirs(fs, base, names).fs)
    decreases |names|
  {
    if names != [] {
      var p := Resolve(base, names[0]);
      if Exists(fs, p) {
        MakeDirsValid(fs, p, names[1..]);
      } else if base !in fs.files {
        MakeDirsValid(Fs(fs.files, fs.dirs + {p}), p, names[1..]);
      }
    }
  }

  /**
    For a destination below the working directory, `ensureDirectories`
    leaves the destination's directory in place: the destination names its
    file in the last directory of the chain (the working directory itself
    when there is none), and after a walk that does not throw, that
    directory is a directory exactly when it was not already a file. So the
    destination can be written exactly when it is not a directory and its
    directory was not a file.
   */
  lemma EnsureDirsMakesParent(fs: Fs, root: string, names: seq<string>)
    requires Valid(fs) && root in fs.dirs
    requires |names| >= 1
    requires forall i :: 0 <= i < |names| ==> Sep !in names[i] && names[i] != ""
    requires EnsureDirs(fs, root + [Sep] + JoinWith(names, [Sep]), root).ok
    ensures var path := root + [Sep] + JoinWith(names, [Sep]);
      var dir := LastDirectory(root, names);
      var made := EnsureDirs(fs, path, root).fs;
      && ParentOf(path) == Some(dir)
      && (dir in made.dirs <==> dir !in fs.files)
      && (Writable(made, path) <==> path !in made.dirs && dir !in fs.files)
  {
    ParentBelowRoot(root, names);
    EnsureDirsBelowRoot(fs, root, names);
    LastDirectoryMade(fs, root, names);
  }

  /** The directory a path below the working directory names its file in. */
  function LastDirectory(root: string, names: seq<string>): string
    requires |names| >= 1
  {
    if |names| == 1 then root else root + [Sep] + JoinWith(names[..|names| - 1], [Sep])
  }

  /** A path below the working directory names a file in its last directory. */
  lemma ParentBelowRoot(root: string, names: seq<string>)
    requires |names| >= 1
    requires forall i :: 0 <= i < |names| ==> Sep !in names[i] && names[i] != ""
    ensures var path := root + [Sep] + JoinWith(names, [Sep]);
      && ParentOf(path) == Some(LastDirectory(root, names))
      && path != "" && path[|path| - 1] != Sep
  {
    var last := names[|names| - 1];
    var dir := LastDirectory(root, names);
    PathSplitsAtLast(root, names);
    ParentOfChild(dir, last);
    var path := dir + [Sep] + last;
    assert path[|path| - 1] == last[|last| - 1];
  }

  /** A path below the working directory is its last directory, the separator, and its last name. */
  lemma PathSplitsAtLast(root: string, names: seq<string>)
    requires |names| >= 1
    ensures root + [Sep] + JoinWith(names, [Sep]) == LastDirectory(root, names) + [Sep] + names[|names| - 1]
  {
    var n := |names|;
    if n > 1 {
      var init := JoinWith(names[..n - 1], [Sep]);
      var last := names[n - 1];
      JoinSnoc(names, [Sep]);
      AppendAssociates(root + [Sep], init + [Sep], last);
      AppendAssociates(root + [Sep], init, [Sep]);
    }
  }

  /**
    After a walk below the working directory that does not throw, the last
    directory is a directory exactly when it was not a file before.
   */
  lemma LastDirectoryMade(fs: Fs, root: string, names: seq<string>)
    requires Valid(fs) && root in fs.dirs
    requires |names| >= 1
    requires forall i :: 0 <= i < |names| ==> names[i] != ""
    requires MakeDirs(fs, root, names[..|names| - 1]).ok
    ensures var made := MakeDirs(fs, root, names[..|names| - 1]).fs;
      LastDirectory(root, names) in made.dirs <==> LastDirectory(root, names) !in fs.files
  {
    var dirs := names[..|names| - 1];
    if |names| == 1 {
      assert MakeDirs(fs, root, dirs).fs == fs;
    } else {
      assert forall i :: 0 <= i < |dirs| ==> dirs[i] == names[i];
      LastMadeBelow(fs, root, dirs);
    }
  }

  /** `ensureDirectories` on a path below the working directory walks its directories. */
  lemma EnsureDirsBelowRoot(fs: Fs, root: string, names: seq<string>)
    requires |names| >= 1
    requires forall i :: 0 <= i < |names| ==> Sep !in names[i]
    ensures EnsureDirs(fs, root + [Sep] + JoinWith(names, [Sep]), root)
         == MakeDirs(fs, root, names[..|names| - 1])
  {
    DirectoriesBelowRoot(root, names);
  }

  /** The deepest directory of a successful walk exists afterwards unless it was a file. */
  lemma LastMadeBelow(fs: Fs, root: string, dirs: seq<string>)
    requires Valid(fs)
    requires |dirs| >= 1
    requires forall i :: 0 <= i < |dirs| ==> dirs[i] != ""
    requires MakeDirs(fs, root, dirs).ok
    ensures var dir := root + [Sep] + JoinWith(dirs, [Sep]);
      dir in MakeDirs(fs, root, dirs).fs.dirs <==> dir !in fs.files
  {
    LastOnChain(root, dirs);
    MakeDirsCreates(fs, root, dirs);
  }

  /** The last path on the chain of non-empty names is the root joined with all of them. */
  lemma LastOnChain(root: string, dirs: seq<string>)
    requires |dirs| >= 1
    requires forall i :: 0 <= i < |dirs| ==> dirs[i] != ""
    ensures root + [Sep] + JoinWith(dirs, [Sep]) in Chain(root, dirs)
  {
    ChainPaths(root, dirs);
    assert dirs[..|dirs|] == dirs;
    assert Chain(root, dirs)[|dirs| - 1] == root + [Sep] + JoinWith(dirs, [Sep]);
  }

  /**
    A file on the way down is skipped by `ensureDirectories`, which only
    tests that the path exists; writing below it then throws (ENOTDIR).
   */
  lemma WriteBelowFileThrows(root: string, f: string, x: string, content: string)
    requires Sep !in f && f != "" && Sep !in x && x != ""
    ensures var fs := Fs(map[root + [Sep] + f := content], {root});
      var path := root + [Sep] + f + [Sep] + x;
      && Valid(fs)
      && EnsureDirs(fs, path, root) == Outcome(fs, true)
      && Write(fs, path, content).None?
  {
    var fs := Fs(map[root + [Sep] + f := content], {root});
    var file := root + [Sep] + f;
    var path := file + [Sep] + x;
    assert JoinWith([f, x], [Sep]) == f + [Sep] + x by {
      assert [f, x][1..] == [x];
    }
    AppendAssociates(root + [Sep], f + [Sep], x);
    AppendAssociates(root + [Sep], f, [Sep]);
    assert path == root + [Sep] + JoinWith([f, x], [Sep]);
    DirectoriesBelowRoot(root, [f, x]);
    assert [f, x][..1] == [f];
    assert Directories(path, root) == [f];
    assert Resolve(root, f) == file;
    assert MakeDirs(fs, root, [f]) == MakeDirs(fs, file, []);
    assert EnsureDirs(fs, path, root) == Outcome(fs, true);
    assert |file| > |root|;
    assert Valid(fs);
    ParentOfChild(file, x);
    assert file !in fs.dirs;
    assert !Writable(fs, path);
  }

  /** The directories of `/this/location/file.txt` below the working directory are `this` and `this/location`. */
  lemma DirectoriesExample(root: string, a: string, b: string, file: string)
    requires Sep !in a && Sep !in b && Sep !in file && a != "" && b != ""
    ensures Directories(root + [Sep] + (a + [Sep] + (b + [Sep] + file)), root) == [a, b]
    ensures Chain(root, [a, b]) == [root + [Sep] + a, root + [Sep] + a + [Sep] + b]
  {
    var names := [a, b, file];
    assert JoinWith(names, [Sep]) == a + [Sep] + (b + [Sep] + file) by {
      assert names[1..] == [b, file];
      assert names[1..][1..] == [file];
    }
    DirectoriesBelowRoot(root, names);
    assert names[..2] == [a, b];
  }

  // ---------------------------------------------------------------------
  // Properties of rendering and of one template

  /** The empty text renders to itself. */
  lemma {:induction false} RenderEmpty(answers: seq<Record>)
    ensures Render("", answers) == ""
    decreases |answers|
  {
    if answers != [] {
      RenderEmpty(answers[1..]);
    }
  }

  /**
    The destination is rendered from the string itself and never read as a
    file, so the file system does not affect it.
   */
  lemma DestinationIgnoresFiles(t: Template, answers: seq<Record>, fs: Fs)
    ensures Replace(t.destination, answers, false, fs) == Some(Destination(t, answers))
  {
    if t.destination.Str? && t.destination.s == "" {
      RenderEmpty(answers);
    }
  }

  /**
    The template body: a non-string or empty template renders to `''`; a
    path of an existing file renders that file's content; a string that is
    not an existing path renders itself.
   */
  lemma TemplateSource(template: Value, answers: seq<Record>, fs: Fs)
    ensures !(template.Str? && template.s != "") ==> Replace(template, answers, true, fs) == Some("")
    ensures template.Str? && template.s != "" && template.s in fs.files ==>
      Replace(template, answers, true, fs) == Some(Render(fs.files[template.s], answers))
    ensures template.Str? && !Exists(fs, template.s) ==>
      Replace(template, answers, true, fs) == Some(Render(template.s, answers))
  {
    if template.Str? && template.s == "" {
      RenderEmpty(answers);
    }
  }

  /**
    `create` changes only the destination file: every other file keeps its
    presence and content, and the directories are those `ensureDirectories`
    left.
   */
  lemma CreateTouchesOnlyDestination(fs: Fs, t: Template, answers: seq<Record>, root: string, registry: Registry)
    ensures var r := Created(fs, t, answers, root, registry);
      && r.fs.dirs == EnsureDirs(fs, Destination(t, answers), root).fs.dirs
      && (forall p :: p != Destination(t, answers) ==> (p in r.fs.files <==> p in fs.files))
      && (forall p :: p != Destination(t, answers) && p in fs.files ==> r.fs.files[p] == fs.files[p])
  {
    DestinationIgnoresFiles(t, answers, fs);
  }

  /**
    A destination that does not exist after the directories are made, or a
    truthy `overwrite`: the destination receives the rendered template.
   */
  lemma CreateWritesTemplate(fs: Fs, t: Template, answers: seq<Record>, root: string, registry: Registry)
    requires var made := EnsureDirs(fs, Destination(t, answers), root);
      made.ok && (!Exists(made.fs, Destination(t, answers)) || Truthy(t.overwrite))
    requires Writable(EnsureDirs(fs, Destination(t, answers), root).fs, Destination(t, answers))
    requires Replace(t.template, answers, true, EnsureDirs(fs, Destination(t, answers), root).fs).Some?
    ensures var r := Created(fs, t, answers, root, registry);
      && r.ok
      && Destination(t, answers) in r.fs.files
      && r.fs.files[Destination(t, answers)] == Replace(t.template, answers, true, EnsureDirs(fs, Destination(t, answers), root).fs).value
  {
    DestinationIgnoresFiles(t, answers, fs);
  }

  /**
    An existing destination file, no `overwrite` and a truthy `update`: the
    destination receives the result of the update method on the existing
    content and the rendered template. The method is `update` itself when it
    is a function, and the registry entry `update` names when that entry is
    a function; any other `update` (a number, an unknown name, a name whose
    entry is not a function) writes the existing content back unchanged.
   */
  lemma CreateUpdates(fs: Fs, t: Template, answers: seq<Record>, root: string, registry: Registry)
    requires var made := EnsureDirs(fs, Destination(t, answers), root);
      made.ok && Destination(t, answers) in made.fs.files && !Truthy(t.overwrite) && t.update.IsTruthy()
    requires Replace(t.template, answers, true, EnsureDirs(fs, Destination(t, answers), root).fs).Some?
    requires Writable(EnsureDirs(fs, Destination(t, answers), root).fs, Destination(t, answers))
    ensures var made := EnsureDirs(fs, Destination(t, answers), root);
      var r := Created(fs, t, answers, root, registry);
      var existing := made.fs.files[Destination(t, answers)];
      var rendered := Replace(t.template, answers, true, made.fs).value;
      var named := t.update.Plain? && t.update.v.Str? && t.update.v.s in registry;
      && r.ok
      && Destination(t, answers) in r.fs.files
      && (t.update.Call? ==> r.fs.files[Destination(t, answers)] == t.update.f(existing, rendered))
      && (named && registry[t.update.v.s].Call? ==>
            r.fs.files[Destination(t, answers)] == registry[t.update.v.s].f(existing, rendered))
      && (!t.update.Call? && !(named && registry[t.update.v.s].Call?) ==>
            r.fs.files[Destination(t, answers)] == existing)
  {
    DestinationIgnoresFiles(t, answers, fs);
  }

  /** An existing destination without `overwrite` or `update`: nothing is written and no file changes. */
  lemma CreateKeeps(fs: Fs, t: Template, answers: seq<Record>, root: string, registry: Registry)
    requires var made := EnsureDirs(fs, Destination(t, answers), root);
      made.ok && Exists(made.fs, Destination(t, answers)) && !Truthy(t.overwrite) && !t.update.IsTruthy()
    ensures Created(fs, t, answers, root, registry) == EnsureDirs(fs, Destination(t, answers), root)
    ensures Created(fs, t, answers, root, registry).fs.files == fs.files
  {
    DestinationIgnoresFiles(t, answers, fs);
  }

  /** A destination that is a directory makes the write or the update throw. */
  lemma CreateOnDirectory(fs: Fs, t: Template, answers: seq<Record>, root: string, registry: Registry)
    requires Valid(fs)
    requires var made := EnsureDirs(fs, Destination(t, answers), root);
      made.ok && Destination(t, answers) in made.fs.dirs && (Truthy(t.overwrite) || t.update.IsTruthy())
    ensures !Created(fs, t, answers, root, registry).ok
  {
    var destination := Destination(t, answers);
    DestinationIgnoresFiles(t, answers, fs);
    MakeDirsValid(fs, root, Directories(destination, root));
  }

  /**
    A destination that cannot be written (its directory is missing or is a
    file, or it names no file) makes `create` throw whenever it comes to
    write, before any file changes.
   */
  lemma CreateUnwritableThrows(fs: Fs, t: Template, answers: seq<Record>, root: string, registry: Registry)
    requires var made := EnsureDirs(fs, Destination(t, answers), root);
      && made.ok && !Writable(made.fs, Destination(t, answers))
      && (!Exists(made.fs, Destination(t, answers)) || Truthy(t.overwrite) || t.update.IsTruthy())
    ensures !Created(fs, t, answers, root, registry).ok
    ensures Created(fs, t, answers, root, registry).fs == EnsureDirs(fs, Destination(t, answers), root).fs
  {
    DestinationIgnoresFiles(t, answers, fs);
  }

  /** A write changes at most the one file it names, and never makes a directory a file. */
  lemma WriteResultTouchesOnly(fs: Fs, destination: string, output: Option<string>)
    requires Valid(fs)
    ensures var r := WriteResult(fs, destination, output);
      && Valid(r.fs)
      && r.fs.dirs == fs.dirs
      && (forall p :: p != destination ==> (p in r.fs.files <==> p in fs.files))
      && (forall p :: p != destination && p in fs.files ==> r.fs.files[p] == fs.files[p])
  {
  }

  /** `create` keeps files and directories apart. */
  lemma CreateValid(fs: Fs, t: Template, answers: seq<Record>, root: string, registry: Registry)
    requires Valid(fs)
    ensures Valid(Created(fs, t, answers, root, registry).fs)
  {
    var destination := Destination(t, answers);
    DestinationIgnoresFiles(t, answers, fs);
    MakeDirsValid(fs, root, Directories(destination, root));
  }

  // ---------------------------------------------------------------------
  // Properties of the whole run

  /** A `check` function that returns a falsy value skips its template entirely. */
  lemma CheckGateSkips(fs: Fs, t: Template, rest: seq<Template>, answers: seq<Record>, root: string, registry: Registry)
    requires t.check.Call? && !Truthy(t.check.f(answers))
    ensures ConstructAll(fs, [t] + rest, answers, root, registry) == ConstructAll(fs, rest, answers, root, registry)
  {
    assert ([t] + rest)[1..] == rest;
  }

  /**
    Without a `check` function, or with one that returns a truthy value, the
    template is created, and the run goes on only when that succeeds.
   */
  lemma NoCheckCreates(fs: Fs, t: Template, rest: seq<Template>, answers: seq<Record>, root: string, registry: Registry)
    requires !t.check.Call? || Truthy(t.check.f(answers))
    ensures var made := Created(fs, t, answers, root, registry);
      ConstructAll(fs, [t] + rest, answers, root, registry)
        == if made.ok then ConstructAll(made.fs, rest, answers, root, registry) else made
  {
    assert ([t] + rest)[1..] == rest;
  }

  /** The whole run keeps files and directories apart, and never removes a directory. */
  lemma {:induction false} ConstructAllValid(fs: Fs, templates: seq<Template>, answers: seq<Record>, root: string, registry: Registry)
    requires Valid(fs)
    ensures Valid(ConstructAll(fs, templates, answers, root, registry).fs)
    ensures fs.dirs <= ConstructAll(fs, templates, answers, root, registry).fs.dirs
    decreases |templates|
  {
    if templates != [] && Truthy(CheckCreateFile(templates[0], answers)) {
      var t := templates[0];
      CreateValid(fs, t, answers, root, registry);
      CreateTouchesOnlyDestination(fs, t, answers, root, registry);
      var made := Created(fs, t, answers, root, registry);
      if made.ok {
        ConstructAllValid(made.fs, templates[1..], answers, root, registry);
      }
    } else if templates != [] {
      ConstructAllValid(fs, templates[1..], answers, root, registry);
    }
  }

  /** A file that is no template's destination keeps its presence and content through the whole run. */
  lemma {:induction false} ConstructAllTouchesOnlyDestinations(fs: Fs, templates: seq<Template>, answers: seq<Record>, root: string, registry: Registry, p: string)
    requires forall i :: 0 <= i < |templates| ==> p != Destination(templates[i], answers)
    ensures var r := ConstructAll(fs, templates, answers, root, registry);
      (p in r.fs.files <==> p in fs.files) && (p in fs.files ==> r.fs.files[p] == fs.files[p])
    decreases |templates|
  {
    if templates != [] {
      var t := templates[0];
      assert forall i :: 0 <= i < |templates[1..]| ==> templates[1..][i] == templates[i + 1];
      if Truthy(CheckCreateFile(t, answers)) {
        CreateTouchesOnlyDestination(fs, t, answers, root, registry);
        var made := Created(fs, t, answers, root, registry);
        if made.ok {
          ConstructAllTouchesOnlyDestinations(made.fs, templates[1..], answers, root, registry, p);
        }
      } else {
        ConstructAllTouchesOnlyDestinations(fs, templates[1..], answers, root, registry, p);
      }
    }
  }

  /** The template text of the overwrite case renders `this is the {{ name }}!` to `this is the pizza!`. */
  lemma PizzaExample(pre: string, post: string, pizza: string)
    requires pre == "this is the " && post == "!" && pizza == "pizza"
    ensures Render(pre + "{{ name }}" + post, [Record("name", Str(pizza))]) == pre + pizza + post
  {
    var answer := Record("name", Str(pizza));
    assert "{{ name }}" == Token(answer.name, " ", " ");
    assert '{' !in pre;
    RenderOneToken(pre, " ", " ", post, answer);
  }

  // ---------------------------------------------------------------------
  // The renderer over a mutable file system

  /** The file system the renderer works on, changed in place by each call. */
  class Disk {
    var files: map<string, string>
    var dirs: set<string>

    function State(): Fs
      reads this
    {
      Fs(files, dirs)
    }

    constructor (fs: Fs)
      ensures State() == fs
    {
      files := fs.files;
      dirs := fs.dirs;
    }

    /** `ensureDirectories`: the `reduce` from the working directory, one `mkdirSync` per missing path. */
    method EnsureDirectories(filepath: string, root: string) returns (ok: bool)
      modifies this
      ensures Outcome(State(), ok) == EnsureDirs(old(State()), filepath, root)
    {
      var directories := Directories(filepath, root);
      var previous := root;
      var i := 0;
      while i < |directories|
        invariant 0 <= i <= |directories|
        invariant MakeDirs(State(), previous, directories[i..]) == EnsureDirs(old(State()), filepath, root)
      {
        var current := Resolve(previous, directories[i]);
        assert directories[i..][1..] == directories[i + 1..];
        if !(current in files || current in dirs) {
          if previous in files {
            return false;
          }
          dirs := dirs + {current};
        }
        previous := current;
        i := i + 1;
      }
      return true;
    }

    /**
      `fs.writeFileSync`, throwing (here: false) on a path that names no
      file, a directory, or a path whose directory is not a directory.
     */
    method WriteFile(path: string, content: string) returns (ok: bool)
      modifies this
      ensures Outcome(State(), ok) == WriteResult(old(State()), path, Some(content))
    {
      if !Writable(State(), path) {
        return false;
      }
      files := files[path := content];
      return true;
    }

    /**
      `create`: the destination, its directories, then the `write` and
      `output` locals set by the overwrite or the update branch.
     */
    method Create(t: Template, answers: seq<Record>, root: string, registry: Registry) returns (ok: bool)
      modifies this
      ensures Outcome(State(), ok) == Created(old(State()), t, answers, root, registry)
    {
      var destination := Replace(t.destination, answers, false, State()).value;
      ok := EnsureDirectories(destination, root);
      if ok {
        ok := WriteDecided(t, answers, destination, registry);
      }
    }

    /**
      The rest of `create` once the directories exist: the `write` and
      `output` locals set by the overwrite or the update branch, then the write.
     */
    method WriteDecided(t: Template, answers: seq<Record>, destination: string, registry: Registry) returns (ok: bool)
      modifies this
      ensures Outcome(State(), ok) == CreatedAfter(Outcome(old(State()), true), t, answers, destination, registry)
    {
      var write := false;
      var output: Option<string> := None;
      if !(destination in files || destination in dirs) || Truthy(t.overwrite) {
        output := Replace(t.template, answers, true, State());
        write := true;
      } else if t.update.IsTruthy() {
        output := Update(State(), t, answers, destination, registry);
        write := true;
      }
      ok := true;
      if write {
        if output.None? {
          return false;
        }
        ok := WriteFile(destination, output.value);
      }
    }

    /** The exported loop: each template whose check passes is created, in order, until one throws. */
    method ConstructTemplates(templates: seq<Template>, answers: seq<Record>, root: string, registry: Registry) returns (ok: bool)
      modifies this
      ensures Outcome(State(), ok) == ConstructAll(old(State()), templates, answers, root, registry)
    {
      var i := 0;
      while i < |templates|
        invariant 0 <= i <= |templates|
        invariant ConstructAll(State(), templates[i..], answers, root, registry)
               == ConstructAll(old(State()), templates, answers, root, registry)
      {
        assert templates[i..][1..] == templates[i + 1..];
        if Truthy(CheckCreateFile(templates[i], answers)) {
          ok := Create(templates[i], answers, root, registry);
          if !ok {
            return;
          }
        }
        i := i + 1;
      }
      return true;
    }
  }
}
