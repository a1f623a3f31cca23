/** src/core/source.c, custom_try_source_file: when `source` may run the compiled form of a script. */
module ZwcFreshness {
  import opened Text

  /** A dump holds the compiled form of several functions or scripts by name. What a compiled form
      means is the text it was compiled from. `loads` is false for a dump that cannot be read, has
      the wrong magic or version, or is cut short. */
  datatype Content = Text(text: string) | Dump(loads: bool, code: map<string, string>)

  datatype File = File(content: Content, mtime: int, regular: bool)

  type Files = map<string, File>

  /** The answers the environment gives to one `source`: the access checks, the debug switch, the
      clock, and what the compiler does. */
  datatype Env = Env(dirWritable: bool, readable: bool, debug: bool, now: int, compiler: Compiler)

  /** The compiler stores the compilation of the text it reads, or leaves the dump as it is, removes
      it, or leaves something unloadable. */
  datatype Compiler = Stores | Declines | Removes | Spoils

  const FD_EXT := ".zwc"

  function ZwcOf(file: string): string { file + FD_EXT }

  /** custom_check_dump_file: load the named entry of a dump, or nothing. A dump records a script by the part of
      its path after the last slash. */
  function CheckDump(fs: Files, wc: string, name: string): Option<string> {
    if wc in fs && fs[wc].content.Dump? && fs[wc].content.loads && name in fs[wc].content.code
    then Some(fs[wc].content.code[name])
    else None
  }

  /** bin_zcompile on a script, with the outcome the environment picks. */
  function Compile(fs: Files, file: string, env: Env): Files
    requires file in fs
  {
    var wc := ZwcOf(file);
    match env.compiler
    case Declines => fs
    case Removes => fs - {wc}
    case Spoils => fs[wc := File(Dump(false, map[]), env.now, true)]
    case Stores =>
      if fs[file].content.Text?
      then fs[wc := File(Dump(true, map[BaseName(file) := fs[file].content.text]), env.now, true)]
      else fs
  }

  /** The freshness test of lines 436 and 452: a dump counts unless its script is newer. */
  predicate DumpCounts(fs: Files, file: string) {
    ZwcOf(file) in fs && (file !in fs || fs[ZwcOf(file)].mtime >= fs[file].mtime)
  }

  class Disk {
    var files: Files

    constructor ()
      ensures files == map[]
    {
      files := map[];
    }

    /** custom_try_source_file. A found program is always the entry of a dump that counts, nothing
        but the dump beside the script is ever written, and only when no dump counts and the script
        is a regular, readable file in a directory that may be written (or when debugging). */
    method TrySourceFile(file: string, env: Env) returns (prog: Option<string>)
      modifies this
      ensures prog == if EndsWith(file, FD_EXT) then CheckDump(files, file, BaseName(file))
                      else if DumpCounts(files, file) then CheckDump(files, ZwcOf(file), BaseName(file)) else None
      ensures files == if MayCompile(old(files), file, env) then Compile(old(files), file, env) else old(files)
    {
      if EndsWith(file, FD_EXT) {
        return CheckDump(files, file, BaseName(file));
      }
      var wc := ZwcOf(file);
      var rc := wc !in files;
      var rn := file !in files;
      if !rn && (rc || files[wc].mtime < files[file].mtime) && files[file].regular && (env.dirWritable || env.debug) {
        if env.readable && file != "/dev/null" && file != "./" {
          WcIsNotFile(file);
          files := Compile(files, file, env);
        }
        rc := wc !in files;
      }
      if !rc && (rn || files[wc].mtime >= files[file].mtime) {
        prog := CheckDump(files, wc, BaseName(file));
        if prog.Some? {
          return prog;
        }
      }
      return None;
    }

    /** The program an attempt runs, line 610 of custom_source: the dump's, or else the text read
        from the file itself; nothing when neither can be had. */
    method Source(file: string, env: Env) returns (ran: Option<string>)
      modifies this
      ensures ran == Runs(old(files), file, env)
      ensures files == AfterSource(old(files), file, env)
    {
      ran := TrySourceFile(file, env);
      if ran.None? && file in files && files[file].content.Text? && env.readable {
        ran := Some(files[file].content.text);
      }
    }
  }

  predicate MayCompile(fs: Files, file: string, env: Env) {
    && !EndsWith(file, FD_EXT)
    && file in fs && !DumpCounts(fs, file) && fs[file].regular && (env.dirWritable || env.debug)
    && env.readable && file != "/dev/null" && file != "./"
  }

  function AfterSource(fs: Files, file: string, env: Env): Files {
    if MayCompile(fs, file, env) then Compile(fs, file, env) else fs
  }

  function Runs(fs: Files, file: string, env: Env): Option<string> {
    var after := AfterSource(fs, file, env);
    var prog := if EndsWith(file, FD_EXT) then CheckDump(after, file, BaseName(file))
                else if DumpCounts(after, file) then CheckDump(after, ZwcOf(file), BaseName(file)) else None;
    if prog.None? && file in after && after[file].content.Text? && env.readable then Some(after[file].content.text)
    else prog
  }

  lemma WcIsNotFile(file: string)
    ensures ZwcOf(file) != file
  {
    assert |ZwcOf(file)| == |file| + 4;
  }

  // ------------------------------------------------------------------- what is compiled and what runs

  /** A script without a dump, or with an older one, is compiled beside itself when it is a regular, readable file and
      its directory may be written, or when debugging; and only then. */
  lemma CompiledIff(fs: Files, file: string, env: Env)
    requires IsScript(fs, file) && env.compiler.Stores?
    ensures var dump := file + ".zwc";
            var due := fs[file].regular && env.readable && (env.dirWritable || env.debug)
                       && file != "/dev/null" && file != "./" && (dump in fs ==> fs[dump].mtime < fs[file].mtime);
            AfterSource(fs, file, env)
            == if due then fs[dump := File(Dump(true, map[BaseName(file) := fs[file].content.text]), env.now, true)]
               else fs
  {
  }

  /** What was just compiled is not compiled again. */
  lemma CompiledOnce(fs: Files, file: string, env: Env, again: Env)
    requires IsScript(fs, file) && env.compiler.Stores? && env.now >= fs[file].mtime
    ensures var after := AfterSource(fs, file, env); after != fs ==> AfterSource(after, file, again) == after
  {
    WcIsNotFile(file);
  }

  /** A dump that is not older than its script, or whose script is gone, is what runs. */
  lemma DumpRuns(fs: Files, file: string, env: Env)
    requires !EndsWith(file, ".zwc") && file + ".zwc" in fs
    requires file in fs ==> fs[file + ".zwc"].mtime >= fs[file].mtime
    requires fs[file + ".zwc"].content.Dump? && fs[file + ".zwc"].content.loads
    requires BaseName(file) in fs[file + ".zwc"].content.code
    ensures Runs(fs, file, env) == Some(fs[file + ".zwc"].content.code[BaseName(file)])
  {
  }

  /** A dump that is named itself runs its own entry; with no dump, the text of a readable script runs. */
  lemma OthersRun(fs: Files, file: string, env: Env)
    requires file in fs && env.readable
    ensures EndsWith(file, ".zwc") && fs[file].content.Dump? ==>
              Runs(fs, file, env) == if fs[file].content.loads && BaseName(file) in fs[file].content.code
                                     then Some(fs[file].content.code[BaseName(file)]) else None
    ensures IsScript(fs, file) && file + ".zwc" !in AfterSource(fs, file, env) ==>
              Runs(fs, file, env) == Some(fs[file].content.text)
  {
    WcIsNotFile(file);
  }

  // ------------------------------------------------------------------- freshness

  /** A dump that would be used for this script holds the script's current text. */
  predicate Fresh(fs: Files, file: string)
    requires file in fs && fs[file].content.Text?
  {
    DumpCounts(fs, file) && CheckDump(fs, ZwcOf(file), BaseName(file)).Some? ==>
      CheckDump(fs, ZwcOf(file), BaseName(file)).value == fs[file].content.text
  }

  /** A script: a text whose name is not that of a dump. */
  predicate IsScript(fs: Files, file: string) {
    file in fs && fs[file].content.Text? && !EndsWith(file, FD_EXT)
  }

  ghost predicate AllFresh(fs: Files) {
    forall file :: IsScript(fs, file) ==> Fresh(fs, file)
  }

  /** Sourcing a readable script has the meaning of its current text exactly when its dump is
      fresh, on a hit, a rebuild, a refused compile and the fallback alike. */
  lemma RunsCurrentTextIffFresh(fs: Files, file: string, env: Env)
    requires IsScript(fs, file) && env.readable
    ensures Runs(fs, file, env) == Some(fs[file].content.text) <==> Fresh(fs, file)
  {
    WcIsNotFile(file);
  }

  /** One step of the world around the module. */
  datatype Step =
    | Edit(file: string, text: string, mtime: int, regular: bool)
    | Delete(file: string)
    | DeleteDump(file: string)
    | Source(file: string, env: Env)

  function Apply(fs: Files, step: Step): Files {
    match step
    case Edit(file, text, mtime, regular) => fs[file := File(Text(text), mtime, regular)]
    case Delete(file) => fs - {file}
    case DeleteDump(file) => fs - {ZwcOf(file)}
    case Source(file, env) => AfterSource(fs, file, env)
  }

  /** An edit is safe when no dump of the script is at least as recent as the edit, unless that dump
      cannot be loaded for this name or happens to hold the new text. Only scripts are edited. */
  predicate SafeEdit(fs: Files, step: Step) {
    step.Edit? ==>
      && !EndsWith(step.file, FD_EXT)
      && (ZwcOf(step.file) in fs && fs[ZwcOf(step.file)].mtime >= step.mtime ==>
            var found := CheckDump(fs, ZwcOf(step.file), BaseName(step.file));
            found.None? || found.value == step.text)
  }

  lemma ZwcInjective(file: string, other: string)
    ensures ZwcOf(file) == ZwcOf(other) ==> file == other
    ensures EndsWith(ZwcOf(file), FD_EXT)
  {
    assert ZwcOf(file)[|file|..] == FD_EXT;
    if ZwcOf(file) == ZwcOf(other) {
      assert file == ZwcOf(file)[..|file|] == ZwcOf(other)[..|other|] == other;
    }
  }

  /** For an edit of a script, safety is exactly what keeps its dump fresh. */
  lemma EditFreshIffSafe(fs: Files, step: Step)
    requires step.Edit? && !EndsWith(step.file, FD_EXT)
    ensures Fresh(Apply(fs, step), step.file) <==> SafeEdit(fs, step)
  {
    WcIsNotFile(step.file);
  }

  /** Every other step, and every safe edit, keeps every dump fresh. */
  lemma StepKeepsFresh(fs: Files, step: Step)
    requires AllFresh(fs) && SafeEdit(fs, step)
    ensures AllFresh(Apply(fs, step))
  {
    var after := Apply(fs, step);
    forall file | IsScript(after, file)
      ensures Fresh(after, file)
    {
      WcIsNotFile(file);
      ZwcInjective(file, step.file);
      ZwcInjective(step.file, file);
      if file in fs && fs[file] == after[file] {
        assert Fresh(fs, file);
      }
    }
  }

  predicate SafeRun(fs: Files, steps: seq<Step>)
    decreases |steps|
  {
    steps == [] || (SafeEdit(fs, steps[0]) && SafeRun(Apply(fs, steps[0]), steps[1..]))
  }

  /** A run is safe step by step. */
  lemma SafeSteps(fs: Files, step: Step, more: seq<Step>)
    ensures AllFresh(map[]) && SafeRun(fs, [])
    ensures SafeRun(fs, [step] + more) <==> SafeEdit(fs, step) && SafeRun(Apply(fs, step), more)
  {
    assert ([step] + more)[0] == step && ([step] + more)[1..] == more;
  }

  lemma LaterEditIsSafe(fs: Files, step: Step)
    requires step.Edit? && !EndsWith(step.file, ".zwc")
    requires step.file + ".zwc" in fs ==> fs[step.file + ".zwc"].mtime < step.mtime
    ensures SafeEdit(fs, step)
  {
  }

  function Run(fs: Files, steps: seq<Step>): Files
    decreases |steps|
  {
    if steps == [] then fs else Run(Apply(fs, steps[0]), steps[1..])
  }

  /** After any run of safe steps from an empty disk, sourcing any readable script runs its current
      text. */
  lemma {:induction false} SourceIsTransparent(fs: Files, steps: seq<Step>, file: string, env: Env)
    requires AllFresh(fs) && SafeRun(fs, steps)
    requires IsScript(Run(fs, steps), file) && env.readable
    ensures Runs(Run(fs, steps), file, env) == Some(Run(fs, steps)[file].content.text)
    decreases |steps|
  {
    if steps == [] {
      RunsCurrentTextIffFresh(fs, file, env);
    } else {
      StepKeepsFresh(fs, steps[0]);
      SourceIsTransparent(Apply(fs, steps[0]), steps[1..], file, env);
    }
  }

  /** The boundary of the contract: an edit in the second in which the dump was written is not seen. */
  lemma SameSecondEditGoesStale(env: Env)
    requires env == Env(true, true, false, 5, Stores)
    ensures var run := [Edit("a", "old", 5, true), Source("a", env), Edit("a", "new", 5, true)];
            !SafeRun(map[], run) && Runs(Run(map[], run), "a", env) == Some("old")
  {
    var edit, source, edit2 := Edit("a", "old", 5, true), Source("a", env), Edit("a", "new", 5, true);
    var fs1 := Apply(map[], edit);
    var fs2 := Apply(fs1, source);
    var fs3 := Apply(fs2, edit2);
    assert ZwcOf("a") == "a.zwc" && BaseName("a") == "a";
    assert fs2["a.zwc"] == File(Dump(true, map["a" := "old"]), 5, true);
    var run := [edit, source, edit2];
    assert run[1..] == [source, edit2] && [source, edit2][1..] == [edit2] && [edit2][1..] == [];
    calc {
      Run(map[], run);
      Run(fs1, [source, edit2]);
      Run(fs2, [edit2]);
      Run(fs3, []);
      fs3;
    }
    assert !SafeEdit(fs2, edit2);
    assert !SafeRun(fs2, [edit2]);
    assert !SafeRun(fs1, [source, edit2]);
  }
}
