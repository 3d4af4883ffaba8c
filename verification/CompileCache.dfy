/** packages/compiler/src/compiler.ts: when a compile may be skipped, and whether skipping is sound. */
module CompileCache {
  import opened Common

  /** The contents of all source files. Digests are taken to be injective, so contents stand for their digests. */
  type Source = string

  /** `webda.module.json`: a module with the source digest it declares, or text that does not parse. */
  datatype File =
    | Module(body: string, stamp: Option<Source>)
    | Unparsable(text: string)

  /** `.webda/cache`. */
  datatype Cache = Cache(sourceDigest: Option<Source>, moduleDigest: Option<File>)

  /** How far a compile has got: the program is what was read when it was loaded. */
  datatype Phase = Idle | Loaded(program: Source) | Analyzed

  datatype Disk = Disk(source: Source, file: Option<File>, cache: Option<Cache>)

  datatype Project = Project(disk: Disk, compiled: bool, phase: Phase)

  /** What must hold for a compile to be skipped: the three guards. */
  predicate SourcesMatch(d: Disk) {
    d.cache.Some? && d.cache.value.sourceDigest == Some(d.source)
  }

  predicate FileMatches(d: Disk) {
    d.cache.Some? && d.file.Some? && d.cache.value.moduleDigest == d.file
  }

  predicate StampMatches(d: Disk) {
    d.file.Some? && d.file.value.Module? && d.file.value.stamp == Some(d.source)
  }

  /** A module that can be read, that the cache recorded with the current sources, and that declares them. */
  predicate AllGuardsPass(source: Source, file: Option<File>, cache: Option<Cache>) {
    && cache.Some? && cache.value.sourceDigest == Some(source) && cache.value.moduleDigest == file
    && file.Some? && file.value.Module? && file.value.stamp == Some(source)
  }

  predicate UpToDate(d: Disk) {
    SourcesMatch(d) && FileMatches(d) && StampMatches(d)
  }

  // ---- steps ----

  datatype Step =
    | Edit(source: Source)
    | Replace(file: Option<File>)
    | ReplaceCache(cache: Option<Cache>)
    | Restart
    | Start(force: bool)
    | Diagnose
    | Generate
    | GenerateFails
    | Finish

  predicate Enabled(p: Project, s: Step) {
    match s
    case Start(_) => p.phase.Idle?
    case Diagnose => p.phase.Loaded?
    case Generate => p.phase.Loaded?
    case GenerateFails => p.phase.Loaded?
    case Finish => p.phase.Analyzed?
    case _ => true
  }

  /** `gen` is what the generator makes of a program; a failure of the generator is logged and swallowed. */
  function Apply(p: Project, s: Step, gen: Source -> string): (r: Project)
    requires Enabled(p, s)
  {
    match s
    case Edit(source) => p.(disk := p.disk.(source := source))
    case Replace(file) => p.(disk := p.disk.(file := file))
    case ReplaceCache(cache) => p.(disk := p.disk.(cache := cache))
    case Restart => Project(p.disk, false, Idle)
    case Start(force) =>
      if (p.compiled || UpToDate(p.disk)) && !force then p else p.(phase := Loaded(p.disk.source))
    case Diagnose => p.(phase := Idle)
    case Generate =>
      Project(p.disk.(file := Some(Module(gen(p.phase.program), Some(p.disk.source)))), p.compiled, Analyzed)
    case GenerateFails => p.(phase := Analyzed)
    case Finish => Project(p.disk.(cache := Some(Cache(Some(p.disk.source), p.disk.file))), true, Idle)
  }

  // ---- the compiler object ----

  class Compiler {
    var source: Source
    var file: Option<File>
    var cache: Option<Cache>
    var compiled: bool

    ghost function OnDisk(): (r: Disk)
      reads this
    {
      Disk(source, file, cache)
    }

    ghost function State(phase: Phase): (r: Project)
      reads this
    {
      Project(OnDisk(), compiled, phase)
    }

    constructor (source: Source, file: Option<File>, cache: Option<Cache>)
      ensures State(Idle) == Project(Disk(source, file, cache), false, Idle)
    {
      this.source, this.file, this.cache, compiled := source, file, cache, false;
    }

    method RequireCompilation() returns (required: bool)
      ensures required <==> !UpToDate(OnDisk())
      ensures required <==> !AllGuardsPass(source, file, cache)
    {
      if cache.None? {
        return true;
      }
      var currentDigest := source;
      if cache.value.sourceDigest != Some(currentDigest) {
        return true;
      }
      var moduleDigest := file;
      if moduleDigest.None? || moduleDigest != cache.value.moduleDigest {
        return true;
      }
      if file.value.Unparsable? {
        return true;
      }
      if file.value.stamp != Some(currentDigest) {
        return true;
      }
      return false;
    }

    /** A compile that nothing else interferes with. `clean` says whether there were no diagnostics,
        `generated` is the generator's output, if it had any. */
    method Compile(force: bool, clean: bool, generated: Option<string>, ghost gen: Source -> string)
      returns (result: bool)
      requires generated.Some? ==> generated.value == gen(source)
      modifies this
      ensures var started := Apply(old(State(Idle)), Start(force), gen);
              if started.phase.Idle? then State(Idle) == old(State(Idle)) && result
              else if !clean then State(Idle) == Apply(started, Diagnose, gen) && !result
              else result && State(Idle)
                   == Apply(Apply(started, if generated.Some? then Generate else GenerateFails, gen), Finish, gen)
      ensures source == old(source)
      ensures !force && old(compiled) ==> result && OnDisk() == old(OnDisk()) && compiled
      ensures !force && !old(compiled) ==>
        (OnDisk() == old(OnDisk()) && result && !compiled <==> AllGuardsPass(old(source), old(file), old(cache)))
      ensures (force || !(old(compiled) || AllGuardsPass(old(source), old(file), old(cache)))) ==>
        result == clean && (!clean ==> OnDisk() == old(OnDisk()) && compiled == old(compiled))
      ensures (force || !(old(compiled) || AllGuardsPass(old(source), old(file), old(cache)))) && clean ==>
        && compiled && cache == Some(Cache(Some(source), file))
        && file == if generated.Some? then Some(Module(generated.value, Some(source))) else old(file)
    {
      var skip := compiled;
      if !skip {
        var required := RequireCompilation();
        skip := !required;
      }
      if skip && !force {
        return true;
      }
      if !clean {
        return false;
      }
      if generated.Some? {
        file := Some(Module(generated.value, Some(source)));
      }
      compiled := true;
      UpdateCache();
      return true;
    }

    method UpdateCache()
      modifies this`cache
      ensures cache == Some(Cache(Some(source), file))
      ensures SourcesMatch(OnDisk()) && (file.Some? ==> FileMatches(OnDisk()))
      ensures UpToDate(OnDisk()) <==> StampMatches(OnDisk())
    {
      var webdaCache := if cache.Some? then cache.value else Cache(None, None);
      webdaCache := webdaCache.(sourceDigest := Some(source));
      webdaCache := webdaCache.(moduleDigest := file);
      cache := Some(webdaCache);
    }
  }

  // ---- whole runs ----

  /** Any steps that the phases allow, whatever is edited, replaced, interrupted or fails. */
  predicate Runs(start: Disk, steps: seq<Step>, gen: Source -> string)
    decreases |steps|, 0
  {
    steps == [] ||
    var before := steps[..|steps| - 1];
    Runs(start, before, gen) && Enabled(After(start, before, gen), steps[|steps| - 1])
  }

  function After(start: Disk, steps: seq<Step>, gen: Source -> string): (p: Project)
    requires Runs(start, steps, gen)
    decreases |steps|, 1
  {
    if steps == [] then Project(start, false, Idle)
    else Apply(After(start, steps[..|steps| - 1], gen), steps[|steps| - 1], gen)
  }

  /** Where the file on disk comes from: it was put there, or generated from the sources loaded by a compile
      and stamped with the sources of a later moment. */
  datatype Origin = Put(file: Option<File>) | Generated(loaded: Source, stamped: Source)

  function WrittenBy(start: Disk, steps: seq<Step>, gen: Source -> string): (o: Origin)
    requires Runs(start, steps, gen)
    decreases |steps|
  {
    if steps == [] then Put(start.file) else
      var before := steps[..|steps| - 1];
      var p := After(start, before, gen);
      match steps[|steps| - 1]
      case Replace(file) => Put(file)
      case Generate => Generated(p.phase.program, p.disk.source)
      case _ => WrittenBy(start, before, gen)
  }

  /** Where the cache on disk comes from: it was put there (or removed), or the last compile to finish recorded in it
      the sources and the file it found, with the file's own origin. */
  datatype Record = Left(cache: Option<Cache>) | Recorded(source: Source, origin: Origin)

  function CachedBy(start: Disk, steps: seq<Step>, gen: Source -> string): (r: Record)
    requires Runs(start, steps, gen)
    decreases |steps|
  {
    if steps == [] then Left(start.cache) else
      var before := steps[..|steps| - 1];
      match steps[|steps| - 1]
      case ReplaceCache(cache) => Left(cache)
      case Finish => Recorded(After(start, before, gen).disk.source, WrittenBy(start, before, gen))
      case _ => CachedBy(start, before, gen)
  }

  function FileOf(o: Origin, gen: Source -> string): (file: Option<File>) {
    match o
    case Put(file) => file
    case Generated(loaded, stamped) => Some(Module(gen(loaded), Some(stamped)))
  }

  function CacheOf(r: Record, gen: Source -> string): (cache: Option<Cache>) {
    match r
    case Left(cache) => cache
    case Recorded(source, origin) => Some(Cache(Some(source), FileOf(origin, gen)))
  }

  predicate SomeFinished(steps: seq<Step>) {
    exists i :: 0 <= i < |steps| && steps[i] == Finish
  }

  lemma {:induction false} DiskIsHistory(start: Disk, steps: seq<Step>, gen: Source -> string)
    requires Runs(start, steps, gen)
    ensures var p := After(start, steps, gen);
            && p.disk.file == FileOf(WrittenBy(start, steps, gen), gen)
            && p.disk.cache == CacheOf(CachedBy(start, steps, gen), gen)
            && (p.compiled ==> SomeFinished(steps))
    decreases |steps|
  {
    if steps != [] {
      var last := |steps| - 1;
      DiskIsHistory(start, steps[..last], gen);
      if i :| 0 <= i < last && steps[..last][i] == Finish { assert steps[i] == Finish; }
    }
  }

  // ---- when skipping is right ----

  /** The module on disk is what the generator makes of the current sources. */
  predicate Right(d: Disk, gen: Source -> string) {
    d.file.Some? && d.file.value.Module? && d.file.value.body == gen(d.source)
  }

  /** The file's body is what the generator makes of the sources its stamp names. */
  predicate Honest(file: Option<File>, gen: Source -> string) {
    file.Some? && file.value.Module? && file.value.stamp.Some? ==> file.value.body == gen(file.value.stamp.value)
  }

  /** Of a generated file: the sources that were loaded make the module that the stamped ones would have made. Of a
      file that was put there: it is honest. */
  predicate Sincere(o: Origin, gen: Source -> string) {
    match o
    case Generated(loaded, stamped) => gen(loaded) == gen(stamped)
    case Put(file) => Honest(file, gen)
  }

  /** Whatever happened before, a compile that the three guards let skip is rightly skipped exactly when the file on
      disk is sincere: generated from sources that had not changed to any effect when the stamp was made, or put there
      by somebody else with an honest stamp. If a compile wrote the cache, that is so exactly when the file it recorded
      was sincere, and the sources are those it recorded. */
  lemma GuardedSkip(start: Disk, steps: seq<Step>, gen: Source -> string)
    requires Runs(start, steps, gen) && UpToDate(After(start, steps, gen).disk)
    ensures Right(After(start, steps, gen).disk, gen) <==> Sincere(WrittenBy(start, steps, gen), gen)
    ensures var r := CachedBy(start, steps, gen);
            r.Recorded? ==>
              && r.source == After(start, steps, gen).disk.source
              && (Right(After(start, steps, gen).disk, gen) <==> Sincere(r.origin, gen))
  {
    DiskIsHistory(start, steps, gen);
  }

  /** A compile that is skipped because this compiler has compiled before looks at nothing: it is rightly skipped
      exactly when the file, which may have been replaced since, was generated from sources that make the same
      module as the current ones, or was put there as the module of the current sources. */
  lemma FlaggedSkip(start: Disk, steps: seq<Step>, gen: Source -> string)
    requires Runs(start, steps, gen) && After(start, steps, gen).compiled
    ensures SomeFinished(steps)
    ensures var d := After(start, steps, gen).disk;
            Right(d, gen) <==> match WrittenBy(start, steps, gen)
                               case Generated(loaded, _) => gen(loaded) == gen(d.source)
                               case Put(file) => Right(d.(file := file), gen)
  {
    DiskIsHistory(start, steps, gen);
  }

  /** No source is edited between loading a program and stamping its module. */
  ghost predicate QuietLoads(start: Disk, steps: seq<Step>, gen: Source -> string)
    requires Runs(start, steps, gen)
    decreases |steps|
  {
    steps == [] ||
    var before := steps[..|steps| - 1];
    && QuietLoads(start, before, gen)
    && (steps[|steps| - 1].Edit? ==> !After(start, before, gen).phase.Loaded?)
  }

  ghost predicate HonestFiles(start: Disk, steps: seq<Step>, gen: Source -> string) {
    Honest(start.file, gen) && forall i :: 0 <= i < |steps| && steps[i].Replace? ==> Honest(steps[i].file, gen)
  }

  lemma {:induction false} AllSincere(start: Disk, steps: seq<Step>, gen: Source -> string)
    requires Runs(start, steps, gen) && QuietLoads(start, steps, gen) && HonestFiles(start, steps, gen)
    ensures var p := After(start, steps, gen); p.phase.Loaded? ==> p.phase.program == p.disk.source
    ensures Sincere(WrittenBy(start, steps, gen), gen)
    decreases |steps|
  {
    if steps != [] {
      var before := steps[..|steps| - 1];
      assert HonestFiles(start, before, gen) by {
        assert forall i :: 0 <= i < |before| ==> before[i] == steps[i];
      }
      AllSincere(start, before, gen);
    }
  }

  /** So where files are only ever restored, and sources rest while a program is loaded, the guards never let a
      needed compile skip, through deletions, restarts, failed generations and any tampering with the cache. */
  lemma SkipIsSound(start: Disk, steps: seq<Step>, gen: Source -> string)
    requires Runs(start, steps, gen)
    requires QuietLoads(start, steps, gen) && HonestFiles(start, steps, gen)
    requires UpToDate(After(start, steps, gen).disk)
    ensures Right(After(start, steps, gen).disk, gen)
  {
    AllSincere(start, steps, gen);
    GuardedSkip(start, steps, gen);
  }

  /** What a compile does when it is asked for: it is skipped, and changes nothing, exactly when it is not forced and
      this compiler has compiled before or all three guards pass; otherwise it loads the current sources. */
  lemma StartSkipsExactlyWhen(p: Project, force: bool, gen: Source -> string)
    requires Enabled(p, Start(force))
    ensures var q := Apply(p, Start(force), gen);
            && (q.phase.Idle? <==>
                  !force && (p.compiled || AllGuardsPass(p.disk.source, p.disk.file, p.disk.cache)))
            && (q.phase.Idle? ==> q == p)
            && (!q.phase.Idle? ==> q == p.(phase := Loaded(p.disk.source)))
  {
  }

  /** So in such runs a compiler that has not compiled before only ever skips when the module on disk is right. */
  lemma SkippedIsRight(start: Disk, steps: seq<Step>, gen: Source -> string)
    requires Runs(start, steps, gen)
    requires QuietLoads(start, steps, gen) && HonestFiles(start, steps, gen)
    requires var p := After(start, steps, gen);
             Enabled(p, Start(false)) && !p.compiled && Apply(p, Start(false), gen).phase.Idle?
    ensures Right(After(start, steps, gen).disk, gen)
  {
    var p := After(start, steps, gen);
    StartSkipsExactlyWhen(p, false, gen);
    SkipIsSound(start, steps, gen);
  }

  /** And a compile that is not skipped, is not disturbed and does not fail makes it right, whatever was there. */
  lemma CompiledIsRight(p: Project, force: bool, gen: Source -> string)
    requires Enabled(p, Start(force)) && !Apply(p, Start(force), gen).phase.Idle?
    ensures var loaded := Apply(p, Start(force), gen);
            && Enabled(loaded, Generate) && Enabled(Apply(loaded, Generate, gen), Finish)
            && var q := Apply(Apply(loaded, Generate, gen), Finish, gen);
               && q.phase.Idle? && q.compiled && q.disk.source == p.disk.source
               && Right(q.disk, gen) && AllGuardsPass(q.disk.source, q.disk.file, q.disk.cache)
  {
  }

  /** A compiler has compiled exactly when some compile finished since it was started. */
  function HasCompiled(steps: seq<Step>): (b: bool)
  {
    if steps == [] then false else
      match steps[|steps| - 1]
      case Finish => true
      case Restart => false
      case _ => HasCompiled(steps[..|steps| - 1])
  }

  lemma {:induction false} CompiledSinceRestart(start: Disk, steps: seq<Step>, gen: Source -> string)
    requires Runs(start, steps, gen)
    ensures After(start, steps, gen).compiled == HasCompiled(steps)
    decreases |steps|
  {
    if steps != [] { CompiledSinceRestart(start, steps[..|steps| - 1], gen); }
  }

  /** Every compile that was begun can end, and leaves room for the next. */
  lemma CompilesEnd(p: Project, gen: Source -> string)
    ensures p.phase.Loaded? ==> Enabled(p, Diagnose) && Enabled(p, Generate) && Enabled(p, GenerateFails)
    ensures p.phase.Loaded? ==> Enabled(Apply(p, Diagnose, gen), Start(false))
    ensures p.phase.Analyzed? ==> Enabled(p, Finish) && Enabled(Apply(p, Finish, gen), Start(false))
    ensures p.phase.Idle? ==> Enabled(p, Start(false)) && Enabled(p, Start(true))
  {
  }

  lemma OneMoreStep(start: Disk, steps: seq<Step>, s: Step, gen: Source -> string)
    requires Runs(start, steps, gen) && Enabled(After(start, steps, gen), s)
    ensures Runs(start, steps + [s], gen)
    ensures After(start, steps + [s], gen) == Apply(After(start, steps, gen), s, gen)
  {
    assert (steps + [s])[..|steps + [s]| - 1] == steps;
  }

  /** A module edited by hand under its old stamp, and a generator that fails on the sources: the compile records
      the edited file, and from then on the guards let every compile skip. */
  lemma TamperedFileIsRecorded(source: Source, body: string, gen: Source -> string)
    requires body != gen(source)
    ensures var start := Disk(source, Some(Module(body, Some(source))), None);
            var steps := [Start(false), GenerateFails, Finish];
            && Runs(start, steps, gen)
            && UpToDate(After(start, steps, gen).disk) && !Right(After(start, steps, gen).disk, gen)
  {
    var start := Disk(source, Some(Module(body, Some(source))), None);
    assert [] + [Start(false)] == [Start(false)];
    assert [Start(false)] + [GenerateFails] == [Start(false), GenerateFails];
    assert [Start(false), GenerateFails] + [Finish] == [Start(false), GenerateFails, Finish];
    OneMoreStep(start, [], Start(false), gen);
    assert After(start, [Start(false)], gen) == Project(start, false, Loaded(source));
    OneMoreStep(start, [Start(false)], GenerateFails, gen);
    assert After(start, [Start(false), GenerateFails], gen) == Project(start, false, Analyzed);
    OneMoreStep(start, [Start(false), GenerateFails], Finish, gen);
  }

  /** One compiler that compiles, sees the sources edited, and is asked again: it skips with the old module. */
  lemma FlagSkipsAnEdit(source: Source, edited: Source, gen: Source -> string)
    requires gen(source) != gen(edited)
    ensures var start := Disk(source, None, None);
            var steps := [Start(false), Generate, Finish, Edit(edited)];
            && Runs(start, steps, gen)
            && Enabled(After(start, steps, gen), Start(false))
            && Apply(After(start, steps, gen), Start(false), gen) == After(start, steps, gen)
            && !UpToDate(After(start, steps, gen).disk) && !Right(After(start, steps, gen).disk, gen)
  {
    var start := Disk(source, None, None);
    var file := Some(Module(gen(source), Some(source)));
    assert [] + [Start(false)] == [Start(false)];
    assert [Start(false)] + [Generate] == [Start(false), Generate];
    assert [Start(false), Generate] + [Finish] == [Start(false), Generate, Finish];
    assert [Start(false), Generate, Finish] + [Edit(edited)] == [Start(false), Generate, Finish, Edit(edited)];
    OneMoreStep(start, [], Start(false), gen);
    assert After(start, [Start(false)], gen) == Project(start, false, Loaded(source));
    OneMoreStep(start, [Start(false)], Generate, gen);
    assert After(start, [Start(false), Generate], gen) == Project(Disk(source, file, None), false, Analyzed);
    OneMoreStep(start, [Start(false), Generate], Finish, gen);
    assert After(start, [Start(false), Generate, Finish], gen)
        == Project(Disk(source, file, Some(Cache(Some(source), file))), true, Idle);
    OneMoreStep(start, [Start(false), Generate, Finish], Edit(edited), gen);
  }

  // ---- one compile with edits in between ----

  /** A compile during which the sources were `loaded`, then `stamped`, then `recorded`; they are now `current`. */
  function EditedCompile(p: Project, loaded: Source, stamped: Source, recorded: Source, current: Source,
                         gen: Source -> string): (q: Project)
    requires p.phase.Idle?
  {
    var p1 := Apply(Apply(p, Edit(loaded), gen), Start(true), gen);
    var p2 := Apply(Apply(p1, Edit(stamped), gen), Generate, gen);
    var p3 := Apply(Apply(p2, Edit(recorded), gen), Finish, gen);
    Apply(p3, Edit(current), gen)
  }

  /** The next compile is skipped exactly when the sources have not changed since the stamp was made, and
      then the skip is wrong exactly when the sources loaded would have given another module. */
  lemma EditsDuringACompile(p: Project, loaded: Source, stamped: Source, recorded: Source, current: Source,
                            gen: Source -> string)
    requires p.phase.Idle?
    ensures var d := EditedCompile(p, loaded, stamped, recorded, current, gen).disk;
            && (UpToDate(d) <==> stamped == recorded == current)
            && (UpToDate(d) ==> (d.file.value.body == gen(d.source) <==> gen(loaded) == gen(current)))
  {
    var p1 := Apply(Apply(p, Edit(loaded), gen), Start(true), gen);
    assert p1.phase == Loaded(loaded);
    var p2 := Apply(Apply(p1, Edit(stamped), gen), Generate, gen);
    assert p2.disk.file == Some(Module(gen(loaded), Some(stamped)));
  }

  /** Generation fails after an edit: the cache then records the new sources with the old module, both of the
      first two guards pass, and only the stamp keeps the next compile from being skipped. */
  lemma OnlyTheStampCatchesAFailedGeneration(p: Project, before: Source, after: Source, gen: Source -> string)
    requires p.phase.Idle? && before != after
    ensures var built := EditedCompile(p, before, before, before, after, gen);
            var d := Apply(Apply(Apply(built, Start(true), gen), GenerateFails, gen), Finish, gen).disk;
            SourcesMatch(d) && FileMatches(d) && !UpToDate(d) && d.file.value.body == gen(before)
  {
    EditsDuringACompile(p, before, before, before, after, gen);
    var p1 := Apply(Apply(p, Edit(before), gen), Start(true), gen);
    assert p1.phase == Loaded(before);
    var built := EditedCompile(p, before, before, before, after, gen);
    assert built.disk.file == Some(Module(gen(before), Some(before)));
  }
}
