/**
  The older template renderer of construct.js.

  It shares the newer renderer's check gate, token substitution, template
  source rule and directory creation, and differs in the write decision: a
  global `overwrite` argument forces every write, and an update always
  parses the existing file and the rendered template as JSON and writes
  their deep merge back as JSON. Parsing and printing JSON are parameters
  of the model; a parse error, a merge error or a file error ends the run.
 */
module LegacyConstruct {
  import opened JsValue
  import opened Answers
  import opened Merge
  import opened Construct

  /** `JSON.parse`: the parsed value, or None for a syntax error. */
  type Parse = string -> Option<Value>

  /** `JSON.stringify(value, null, 2)` */
  type Stringify = Value -> string

  /**
    The update branch: parse the rendered template and the existing file,
    merge the template into the existing value and print the result.
   */
  function MergeUpdate(fs: Fs, t: Template, answers: seq<Record>, destination: string, parse: Parse, stringify: Stringify): (r: Option<string>)
  {
    var rendered := Replace(t.template, answers, true, fs);
    if rendered.None? then None
    else
      var templateObj := parse(rendered.value);
      var existing := Read(fs, destination);
      if templateObj.None? || existing.None? then None
      else
        var existingObj := parse(existing.value);
        if existingObj.None? then None
        else
          var merged := MergeDeep(existingObj.value, templateObj.value);
          if merged.None? then None else Some(stringify(merged.value))
  }

  /** The body of the loop for one template whose check passed. */
  function LegacyCreated(fs: Fs, t: Template, answers: seq<Record>, root: string, overwrite: Value, parse: Parse, stringify: Stringify): (r: Outcome)
  {
    var destination := Replace(t.destination, answers, false, fs).value;
    LegacyCreatedAfter(EnsureDirs(fs, destination, root), t, answers, destination, overwrite, parse, stringify)
  }

  /** The second half of the older `create`: the write decision and its result. */
  function LegacyCreatedAfter(made: Outcome, t: Template, answers: seq<Record>, destination: string,
                              overwrite: Value, parse: Parse, stringify: Stringify): Outcome
  {
    if !made.ok then made
    else if !Exists(made.fs, destination) || Truthy(overwrite) || Truthy(t.overwrite) then
      WriteResult(made.fs, destination, Replace(t.template, answers, true, made.fs))
    else if t.update.IsTruthy() then
      WriteResult(made.fs, destination, MergeUpdate(made.fs, t, answers, destination, parse, stringify))
    else made
  }

  /** The exported loop with its global `overwrite` argument. */
  function LegacyConstructAll(fs: Fs, templates: seq<Template>, answers: seq<Record>, root: string, overwrite: Value, parse: Parse, stringify: Stringify): (r: Outcome)
    decreases |templates|
  {
    if templates == [] then Outcome(fs, true)
    else if !Truthy(CheckCreateFile(templates[0], answers)) then
      LegacyConstructAll(fs, templates[1..], answers, root, overwrite, parse, stringify)
    else
      var made := LegacyCreated(fs, templates[0], answers, root, overwrite, parse, stringify);
      if made.ok then LegacyConstructAll(made.fs, templates[1..], answers, root, overwrite, parse, stringify) else made
  }

  // ---------------------------------------------------------------------
  // Properties

  /**
    Without the global flag and without `update`, the older renderer does
    what the newer one does: the same directories, the same write decision,
    the same content.
   */
  lemma AgreesWithNewer(fs: Fs, t: Template, answers: seq<Record>, root: string, overwrite: Value, registry: Registry, parse: Parse, stringify: Stringify)
    requires !Truthy(overwrite) && !t.update.IsTruthy()
    ensures LegacyCreated(fs, t, answers, root, overwrite, parse, stringify) == Created(fs, t, answers, root, registry)
  {
  }

  /**
    A truthy global `overwrite` writes the rendered template over an existing
    destination file, whatever the template's own flags say.
   */
  lemma GlobalOverwriteWrites(fs: Fs, t: Template, answers: seq<Record>, root: string, overwrite: Value, parse: Parse, stringify: Stringify)
    requires Truthy(overwrite)
    requires var made := EnsureDirs(fs, Destination(t, answers), root);
      made.ok && Writable(made.fs, Destination(t, answers))
    requires Replace(t.template, answers, true, EnsureDirs(fs, Destination(t, answers), root).fs).Some?
    ensures var r := LegacyCreated(fs, t, answers, root, overwrite, parse, stringify);
      && r.ok
      && Destination(t, answers) in r.fs.files
      && r.fs.files[Destination(t, answers)] == Replace(t.template, answers, true, EnsureDirs(fs, Destination(t, answers), root).fs).value
  {
    DestinationIgnoresFiles(t, answers, fs);
  }

  /**
    An existing destination file with no overwrite flag and a truthy
    `update`: the file becomes the printed deep merge of its parsed content
    and the parsed rendered template, whatever value `update` holds.
   */
  lemma UpdateMerges(fs: Fs, t: Template, answers: seq<Record>, root: string, overwrite: Value, parse: Parse, stringify: Stringify)
    requires !Truthy(overwrite) && !Truthy(t.overwrite) && t.update.IsTruthy()
    requires var made := EnsureDirs(fs, Destination(t, answers), root);
      made.ok && Destination(t, answers) in made.fs.files && Writable(made.fs, Destination(t, answers))
    requires var made := EnsureDirs(fs, Destination(t, answers), root);
      var rendered := Replace(t.template, answers, true, made.fs);
      && rendered.Some?
      && parse(rendered.value).Some?
      && parse(made.fs.files[Destination(t, answers)]).Some?
      && MergeDeep(parse(made.fs.files[Destination(t, answers)]).value, parse(rendered.value).value).Some?
    ensures var made := EnsureDirs(fs, Destination(t, answers), root);
      var rendered := Replace(t.template, answers, true, made.fs).value;
      var existing := made.fs.files[Destination(t, answers)];
      var r := LegacyCreated(fs, t, answers, root, overwrite, parse, stringify);
      && r.ok
      && Destination(t, answers) in r.fs.files
      && r.fs.files[Destination(t, answers)] == stringify(MergeDeep(parse(existing).value, parse(rendered).value).value)
  {
    DestinationIgnoresFiles(t, answers, fs);
  }

  /** A rendered template that is not JSON makes the update throw, and the run stops. */
  lemma UnparsableTemplateThrows(fs: Fs, t: Template, answers: seq<Record>, root: string, overwrite: Value, parse: Parse, stringify: Stringify)
    requires !Truthy(overwrite) && !Truthy(t.overwrite) && t.update.IsTruthy()
    requires var made := EnsureDirs(fs, Destination(t, answers), root);
      var rendered := Replace(t.template, answers, true, made.fs);
      made.ok && Exists(made.fs, Destination(t, answers)) && rendered.Some? && parse(rendered.value).None?
    ensures !LegacyCreated(fs, t, answers, root, overwrite, parse, stringify).ok
  {
    DestinationIgnoresFiles(t, answers, fs);
  }

  /**
    An existing destination whose content is not JSON makes the update throw
    when it is parsed, after the rendered template parsed; nothing is written.
   */
  lemma UnparsableExistingThrows(fs: Fs, t: Template, answers: seq<Record>, root: string, overwrite: Value, parse: Parse, stringify: Stringify)
    requires !Truthy(overwrite) && !Truthy(t.overwrite) && t.update.IsTruthy()
    requires var made := EnsureDirs(fs, Destination(t, answers), root);
      var rendered := Replace(t.template, answers, true, made.fs);
      && made.ok && Destination(t, answers) in made.fs.files
      && rendered.Some? && parse(rendered.value).Some?
      && parse(made.fs.files[Destination(t, answers)]).None?
    ensures !LegacyCreated(fs, t, answers, root, overwrite, parse, stringify).ok
    ensures LegacyCreated(fs, t, answers, root, overwrite, parse, stringify).fs
         == EnsureDirs(fs, Destination(t, answers), root).fs
  {
    DestinationIgnoresFiles(t, answers, fs);
  }

  /**
    Both texts parse, but `mergeDeep` throws on them (`Object.keys` of a
    `null` or `undefined` it reaches where the existing value has an object):
    the update throws and nothing is written.
   */
  lemma MergeFailureThrows(fs: Fs, t: Template, answers: seq<Record>, root: string, overwrite: Value, parse: Parse, stringify: Stringify)
    requires !Truthy(overwrite) && !Truthy(t.overwrite) && t.update.IsTruthy()
    requires var made := EnsureDirs(fs, Destination(t, answers), root);
      var rendered := Replace(t.template, answers, true, made.fs);
      && made.ok && Destination(t, answers) in made.fs.files
      && rendered.Some? && parse(rendered.value).Some?
      && parse(made.fs.files[Destination(t, answers)]).Some?
      && MergeDeep(parse(made.fs.files[Destination(t, answers)]).value, parse(rendered.value).value).None?
    ensures !LegacyCreated(fs, t, answers, root, overwrite, parse, stringify).ok
    ensures LegacyCreated(fs, t, answers, root, overwrite, parse, stringify).fs
         == EnsureDirs(fs, Destination(t, answers), root).fs
  {
    DestinationIgnoresFiles(t, answers, fs);
  }

  /** An existing destination without any overwrite flag or `update` is left alone. */
  lemma LegacyKeeps(fs: Fs, t: Template, answers: seq<Record>, root: string, overwrite: Value, parse: Parse, stringify: Stringify)
    requires !Truthy(overwrite) && !Truthy(t.overwrite) && !t.update.IsTruthy()
    requires var made := EnsureDirs(fs, Destination(t, answers), root);
      made.ok && Exists(made.fs, Destination(t, answers))
    ensures LegacyCreated(fs, t, answers, root, overwrite, parse, stringify).fs.files == fs.files
  {
    DestinationIgnoresFiles(t, answers, fs);
  }

  /** One template changes only its destination file, and keeps files and directories apart. */
  lemma LegacyTouchesOnlyDestination(fs: Fs, t: Template, answers: seq<Record>, root: string, overwrite: Value, parse: Parse, stringify: Stringify)
    requires Valid(fs)
    ensures var r := LegacyCreated(fs, t, answers, root, overwrite, parse, stringify);
      && Valid(r.fs)
      && r.fs.dirs == EnsureDirs(fs, Destination(t, answers), root).fs.dirs
      && (forall p :: p != Destination(t, answers) ==> (p in r.fs.files <==> p in fs.files))
      && (forall p :: p != Destination(t, answers) && p in fs.files ==> r.fs.files[p] == fs.files[p])
  {
    var destination := Destination(t, answers);
    DestinationIgnoresFiles(t, answers, fs);
    MakeDirsValid(fs, root, Directories(destination, root));
    LegacyAfterTouchesOnly(EnsureDirs(fs, destination, root), t, answers, destination, overwrite, parse, stringify);
  }

  /** The write decision changes only the destination file, whichever branch it takes. */
  lemma LegacyAfterTouchesOnly(made: Outcome, t: Template, answers: seq<Record>, destination: string,
                               overwrite: Value, parse: Parse, stringify: Stringify)
    requires Valid(made.fs)
    ensures var r := LegacyCreatedAfter(made, t, answers, destination, overwrite, parse, stringify);
      && Valid(r.fs)
      && r.fs.dirs == made.fs.dirs
      && (forall p :: p != destination ==> (p in r.fs.files <==> p in made.fs.files))
      && (forall p :: p != destination && p in made.fs.files ==> r.fs.files[p] == made.fs.files[p])
  {
    if made.ok {
      if !Exists(made.fs, destination) || Truthy(overwrite) || Truthy(t.overwrite) {
        WriteResultTouchesOnly(made.fs, destination, Replace(t.template, answers, true, made.fs));
      } else if t.update.IsTruthy() {
        WriteResultTouchesOnly(made.fs, destination, MergeUpdate(made.fs, t, answers, destination, parse, stringify));
      }
    }
  }

  /** A `check` function that returns a falsy value skips its template. */
  lemma LegacyCheckGateSkips(fs: Fs, t: Template, rest: seq<Template>, answers: seq<Record>, root: string, overwrite: Value, parse: Parse, stringify: Stringify)
    requires t.check.Call? && !Truthy(t.check.f(answers))
    ensures LegacyConstructAll(fs, [t] + rest, answers, root, overwrite, parse, stringify)
         == LegacyConstructAll(fs, rest, answers, root, overwrite, parse, stringify)
  {
    assert ([t] + rest)[1..] == rest;
  }

  /** A file that is no template's destination keeps its presence and content through the whole run. */
  lemma {:induction false} LegacyTouchesOnlyDestinations(fs: Fs, templates: seq<Template>, answers: seq<Record>, root: string, overwrite: Value, parse: Parse, stringify: Stringify, p: string)
    requires Valid(fs)
    requires forall i :: 0 <= i < |templates| ==> p != Destination(templates[i], answers)
    ensures var r := LegacyConstructAll(fs, templates, answers, root, overwrite, parse, stringify);
      && Valid(r.fs)
      && (p in r.fs.files <==> p in fs.files)
      && (p in fs.files ==> r.fs.files[p] == fs.files[p])
    decreases |templates|
  {
    if templates != [] {
      var t := templates[0];
      assert forall i :: 0 <= i < |templates[1..]| ==> templates[1..][i] == templates[i + 1];
      if Truthy(CheckCreateFile(t, answers)) {
        LegacyTouchesOnlyDestination(fs, t, answers, root, overwrite, parse, stringify);
        var made := LegacyCreated(fs, t, answers, root, overwrite, parse, stringify);
        if made.ok {
          LegacyTouchesOnlyDestinations(made.fs, templates[1..], answers, root, overwrite, parse, stringify, p);
        }
      } else {
        LegacyTouchesOnlyDestinations(fs, templates[1..], answers, root, overwrite, parse, stringify, p);
      }
    }
  }

  // ---------------------------------------------------------------------
  // The loop over a mutable file system

  /** The body of the `forEach` for one template whose check passed. */
  method LegacyCreate(disk: Disk, t: Template, answers: seq<Record>, root: string, overwrite: Value, parse: Parse, stringify: Stringify) returns (ok: bool)
    modifies disk
    ensures Outcome(disk.State(), ok) == LegacyCreated(old(disk.State()), t, answers, root, overwrite, parse, stringify)
  {
    var destination := Replace(t.destination, answers, false, disk.State()).value;
    ok := disk.EnsureDirectories(destination, root);
    if ok {
      ok := WriteDestination(disk, t, answers, destination, overwrite, parse, stringify);
    }
  }

  /** The write decision of the older `create`, once the directories exist. */
  method WriteDestination(disk: Disk, t: Template, answers: seq<Record>, destination: string,
                          overwrite: Value, parse: Parse, stringify: Stringify) returns (ok: bool)
    modifies disk
    ensures Outcome(disk.State(), ok)
         == LegacyCreatedAfter(Outcome(old(disk.State()), true), t, answers, destination, overwrite, parse, stringify)
  {
    ok := true;
    var write := false;
    var output: Option<string> := None;
    if !(destination in disk.files || destination in disk.dirs) || Truthy(overwrite) || Truthy(t.overwrite) {
      output := Replace(t.template, answers, true, disk.State());
      write := true;
    } else if t.update.IsTruthy() {
      output := MergeUpdate(disk.State(), t, answers, destination, parse, stringify);
      write := true;
    }
    if write {
      if output.None? {
        return false;
      }
      ok := disk.WriteFile(destination, output.value);
    }
  }

  /** The exported loop: each template whose check passes, in order, until one throws. */
  method LegacyConstruct(disk: Disk, templates: seq<Template>, answers: seq<Record>, root: string, overwrite: Value, parse: Parse, stringify: Stringify) returns (ok: bool)
    modifies disk
    ensures Outcome(disk.State(), ok) == LegacyConstructAll(old(disk.State()), templates, answers, root, overwrite, parse, stringify)
  {
    var i := 0;
    while i < |templates|
      invariant 0 <= i <= |templates|
      invariant LegacyConstructAll(disk.State(), templates[i..], answers, root, overwrite, parse, stringify)
             == LegacyConstructAll(old(disk.State()), templates, answers, root, overwrite, parse, stringify)
    {
      assert templates[i..][1..] == templates[i + 1..];
      if Truthy(CheckCreateFile(templates[i], answers)) {
        ok := LegacyCreate(disk, templates[i], answers, root, overwrite, parse, stringify);
        if !ok {
          return;
        }
      }
      i := i + 1;
    }
    return true;
  }
}
