/**
 * The `install_doc` command's tree transformer: a sequence of install specs, each a
 * manifest template, a chain of regular-expression rewrites and an optional destination
 * sub-directory, is turned into an ordered run of `mkpath` / `copy_file` calls.
 *
 * The collaborators whose code lies outside setup.py (variable substitution, the
 * distutils file list, `re.sub`, `change_root`, `os.path.dirname`) are the fields of an
 * `Env` and stay uninterpreted: every statement below holds for all of them.
 */
module TreeCopy {
  import opened Common

  /** The substitution dict handed to `subst_vars`. */
  type Substitutions = map<string, string>

  /** One destination rewrite `(pattern, replacement)`, applied with `re.sub`. */
  datatype Xform = Xform(pattern: string, replacement: string)

  /** One install spec `(manifest_template, dst_xforms, dst_dir)`; `None` is Python's `None`. */
  datatype InstallSpec = InstallSpec(template: seq<string>, xforms: Option<seq<Xform>>, dstDir: Option<Path>)

  /** The library functions the transformer calls, as uninterpreted total functions. */
  datatype Env = Env(
    substVars: (string, Substitutions) -> string,               // subst_vars(s, substitutions)
    findAll: Option<Path> -> seq<Path>,                          // FileList.findall(dir): the scan of the source tree
    processTemplateLine: (seq<Path>, seq<Path>, string) -> seq<Path>,  // (allfiles, files, line) -> new files
    reSub: (string, string, string) -> string,                   // re.sub(pattern, replacement, path)
    changeRoot: (Path, Path) -> Path,                            // change_root(new_root, path)
    dirname: Path -> Path)                                       // os.path.dirname(path)

  /** What the command does to the destination: `self.mkpath(dir)` or `self.copy_file(src, dst)`. */
  datatype Action = MakePath(dir: Path) | Copy(src: Path, dst: Path)

  /** `subst_vars` applied to an optional argument, skipped when it is `None`. */
  function SubstOpt(env: Env, s: Option<string>, subs: Substitutions): Option<string>
  {
    if s.Some? then Some(env.substVars(s.value, subs)) else None
  }

  /** The rewrite chain of a spec; `None` and `[]` both leave the path alone. */
  function ChainOf(spec: InstallSpec): seq<Xform>
  {
    if spec.xforms.Some? then spec.xforms.value else []
  }

  /** Left-to-right fold of `re.sub` over the chain: each rewrite sees the previous one's output. */
  function ApplyXforms(env: Env, xforms: seq<Xform>, path: Path): Path
    decreases |xforms|
  {
    if xforms == [] then path
    else ApplyXforms(env, xforms[1..], env.reSub(xforms[0].pattern, xforms[0].replacement, path))
  }

  /** The full destination of one selected source path: rewrite, then re-root under the
      (substituted) `dst_dir`, then under the (substituted) `dst_root`, each re-rooting
      skipped when its argument is `None`. */
  function Destination(env: Env, xforms: seq<Xform>, dstDir: Option<Path>, dstRoot: Option<Path>, src: Path): Path
  {
    var rewritten := ApplyXforms(env, xforms, src);
    var underDir := if dstDir.Some? then env.changeRoot(dstDir.value, rewritten) else rewritten;
    if dstRoot.Some? then env.changeRoot(dstRoot.value, underDir) else underDir
  }

  /** The file list after feeding the remaining template `lines`, each substituted, to
      `process_template_line`, starting from `files`. */
  function SelectFrom(env: Env, allFiles: seq<Path>, files: seq<Path>, lines: seq<string>, subs: Substitutions): seq<Path>
    decreases |lines|
  {
    if lines == [] then files
    else SelectFrom(env, allFiles, env.processTemplateLine(allFiles, files, env.substVars(lines[0], subs)), lines[1..], subs)
  }

  /** The files a template selects: the file list is emptied first, so nothing survives
      from an earlier spec. */
  function Selected(env: Env, allFiles: seq<Path>, template: seq<string>, subs: Substitutions): seq<Path>
  {
    SelectFrom(env, allFiles, [], template, subs)
  }

  /** The calls issued for a list of selected files, in list order: for each, a `mkpath` of
      the destination's directory and then the copy. */
  function CopyActions(env: Env, files: seq<Path>, xforms: seq<Xform>, dstDir: Option<Path>, dstRoot: Option<Path>): seq<Action>
    decreases |files|
  {
    if files == [] then []
    else
      var dst := Destination(env, xforms, dstDir, dstRoot, files[0]);
      [MakePath(env.dirname(dst)), Copy(files[0], dst)] + CopyActions(env, files[1..], xforms, dstDir, dstRoot)
  }

  /** The calls issued for one spec, given the shared scan `allFiles` and the substituted `dst_root`. */
  function SpecActions(env: Env, allFiles: seq<Path>, spec: InstallSpec, dstRoot: Option<Path>, subs: Substitutions): seq<Action>
  {
    CopyActions(env, Selected(env, allFiles, spec.template, subs), ChainOf(spec), SubstOpt(env, spec.dstDir, subs), dstRoot)
  }

  /** The calls issued for a sequence of specs, in spec order. */
  function SpecsActions(env: Env, allFiles: seq<Path>, specs: seq<InstallSpec>, dstRoot: Option<Path>, subs: Substitutions): seq<Action>
    decreases |specs|
  {
    if specs == [] then []
    else SpecActions(env, allFiles, specs[0], dstRoot, subs) + SpecsActions(env, allFiles, specs[1..], dstRoot, subs)
  }

  /** Every call `copy_transformed_tree(install_specs, dst_root, src_root, substitutions)`
      issues: the source tree is scanned once, under the substituted `src_root`, and that
      one scan serves every spec. */
  function TreeActions(env: Env, specs: seq<InstallSpec>, dstRoot: Option<Path>, srcRoot: Option<Path>, subs: Substitutions): seq<Action>
  {
    SpecsActions(env, env.findAll(SubstOpt(env, srcRoot, subs)), specs, SubstOpt(env, dstRoot, subs), subs)
  }

  /** The distutils `FileList` the transformer drives: `allFiles` is what `findall` found,
      `files` the running selection that template lines edit. */
  class FileList {
    var allFiles: seq<Path>
    var files: seq<Path>

    constructor ()
      ensures allFiles == [] && files == []
    {
      allFiles := [];
      files := [];
    }

    /** `findall(dir)`: records the scan of the source tree (`None`: the current directory). */
    method FindAll(env: Env, dir: Option<Path>)
      modifies this
      ensures allFiles == env.findAll(dir) && files == old(files)
    {
      allFiles := env.findAll(dir);
    }

    /** `process_template_line(line)`: one manifest directive edits the running selection. */
    method ProcessTemplateLine(env: Env, line: string)
      modifies this
      ensures files == env.processTemplateLine(old(allFiles), old(files), line)
      ensures allFiles == old(allFiles)
    {
      files := env.processTemplateLine(allFiles, files, line);
    }
  }

  /** The `install_doc` command; `issued` records, in order, every `mkpath` and
      `copy_file` call it has made. */
  class InstallDoc {
    var issued: seq<Action>

    constructor ()
      ensures issued == []
    {
      issued := [];
    }

    /** `self.mkpath(dir)`. */
    method MkPath(dir: Path)
      modifies this
      ensures issued == old(issued) + [MakePath(dir)]
    {
      issued := issued + [MakePath(dir)];
    }

    /** `self.copy_file(src, dst)`. */
    method CopyFile(src: Path, dst: Path)
      modifies this
      ensures issued == old(issued) + [Copy(src, dst)]
    {
      issued := issued + [Copy(src, dst)];
    }

    /** `copy_transformed_tree`: appends to `issued` exactly the calls `TreeActions` lists. */
    method CopyTransformedTree(env: Env, installSpecs: seq<InstallSpec>, dstRoot: Option<Path>,
                               srcRoot: Option<Path>, substitutions: Substitutions)
      modifies this
      ensures issued == old(issued) + TreeActions(env, installSpecs, dstRoot, srcRoot, substitutions)
    {
      var srcRoot' := srcRoot;
      if srcRoot'.Some? {
        srcRoot' := Some(env.substVars(srcRoot'.value, substitutions));
      }
      var dstRoot' := dstRoot;
      if dstRoot'.Some? {
        dstRoot' := Some(env.substVars(dstRoot'.value, substitutions));
      }
      assert srcRoot' == SubstOpt(env, srcRoot, substitutions);
      assert dstRoot' == SubstOpt(env, dstRoot, substitutions);

      var filelist := new FileList();
      filelist.FindAll(env, srcRoot');  // one scan, shared by every spec
      InstallSpecs(env, filelist, installSpecs, dstRoot', substitutions);
    }

    /** The loop over install specs, all of them served by the one scan in `filelist`. */
    method InstallSpecs(env: Env, filelist: FileList, installSpecs: seq<InstallSpec>, dstRoot: Option<Path>,
                        substitutions: Substitutions)
      modifies this, filelist
      ensures issued == old(issued) + SpecsActions(env, old(filelist.allFiles), installSpecs, dstRoot, substitutions)
    {
      ghost var allFiles := filelist.allFiles;
      ghost var all := SpecsActions(env, allFiles, installSpecs, dstRoot, substitutions);
      assert installSpecs[0..] == installSpecs;
      var i := 0;
      while i < |installSpecs|
        invariant 0 <= i <= |installSpecs|
        invariant filelist.allFiles == allFiles
        invariant issued + SpecsActions(env, allFiles, installSpecs[i..], dstRoot, substitutions) == old(issued) + all
      {
        ghost var before := issued;
        SpecsActionsStep(env, allFiles, installSpecs, i, dstRoot, substitutions);
        InstallOneSpec(env, filelist, installSpecs[i], dstRoot, substitutions);
        AppendAssoc(before, issued[|before|..], SpecsActions(env, allFiles, installSpecs[i + 1..], dstRoot, substitutions));
        i := i + 1;
      }
      assert installSpecs[i..] == [];
      assert issued + [] == issued;
    }

    /** One turn of the loop over install specs: substitute `dst_dir`, empty the file list,
        feed it the substituted template lines, then copy every selected file. */
    method InstallOneSpec(env: Env, filelist: FileList, spec: InstallSpec, dstRoot: Option<Path>,
                          substitutions: Substitutions)
      modifies this, filelist
      ensures filelist.allFiles == old(filelist.allFiles)
      ensures issued == old(issued) + SpecActions(env, old(filelist.allFiles), spec, dstRoot, substitutions)
    {
      var dstDir := spec.dstDir;
      if dstDir.Some? {
        dstDir := Some(env.substVars(dstDir.value, substitutions));
      }

      filelist.files := [];  // reinitialised for every spec

      var k := 0;
      while k < |spec.template|
        invariant 0 <= k <= |spec.template|
        invariant issued == old(issued) && filelist.allFiles == old(filelist.allFiles)
        invariant SelectFrom(env, filelist.allFiles, filelist.files, spec.template[k..], substitutions)
                  == Selected(env, filelist.allFiles, spec.template, substitutions)
      {
        filelist.ProcessTemplateLine(env, env.substVars(spec.template[k], substitutions));
        k := k + 1;
      }

      CopySelected(env, filelist.files, spec.xforms, dstDir, dstRoot);
    }

    /** The loop over the selected files: for each, in list order, `mkpath` of the
        destination's directory and then `copy_file` from the selected path itself. */
    method CopySelected(env: Env, files: seq<Path>, xforms: Option<seq<Xform>>, dstDir: Option<Path>,
                        dstRoot: Option<Path>)
      modifies this
      ensures issued == old(issued) + CopyActions(env, files, if xforms.Some? then xforms.value else [], dstDir, dstRoot)
    {
      ghost var chain := if xforms.Some? then xforms.value else [];
      assert files[0..] == files;
      var j := 0;
      while j < |files|
        invariant 0 <= j <= |files|
        invariant issued + CopyActions(env, files[j..], chain, dstDir, dstRoot)
                  == old(issued) + CopyActions(env, files, chain, dstDir, dstRoot)
      {
        ghost var before := issued;
        CopyActionsStep(env, files, j, chain, dstDir, dstRoot);
        CopyOne(env, files[j], xforms, dstDir, dstRoot);
        AppendAssoc(before, issued[|before|..], CopyActions(env, files[j + 1..], chain, dstDir, dstRoot));
        j := j + 1;
      }
      assert files[j..] == [];
      assert issued + [] == issued;
    }

    /** One turn of the loop over the selected files. */
    method CopyOne(env: Env, srcPath: Path, xforms: Option<seq<Xform>>, dstDir: Option<Path>, dstRoot: Option<Path>)
      modifies this
      ensures var dst := Destination(env, if xforms.Some? then xforms.value else [], dstDir, dstRoot, srcPath);
              issued == old(issued) + [MakePath(env.dirname(dst)), Copy(srcPath, dst)]
    {
      var fullDstPath := FullDestination(env, xforms, dstDir, dstRoot, srcPath);
      var fullDstDir := env.dirname(fullDstPath);
      MkPath(fullDstDir);
      CopyFile(srcPath, fullDstPath);
    }
  }

  /** The destination of one selected file: the rewrite chain (skipped when `dst_xforms`
      is `None` or empty), then `dst_dir`, then `dst_root`, each skipped when `None`. */
  method FullDestination(env: Env, xforms: Option<seq<Xform>>, dstDir: Option<Path>, dstRoot: Option<Path>,
                         srcPath: Path) returns (fullDstPath: Path)
    ensures fullDstPath == Destination(env, if xforms.Some? then xforms.value else [], dstDir, dstRoot, srcPath)
  {
    var dstPath := srcPath;
    if xforms.Some? && xforms.value != [] {
      dstPath := RewritePath(env, xforms.value, srcPath);
    }
    if dstDir.Some? {
      dstPath := env.changeRoot(dstDir.value, dstPath);
    }
    if dstRoot.None? {
      fullDstPath := dstPath;
    } else {
      fullDstPath := env.changeRoot(dstRoot.value, dstPath);
    }
  }

  /** The loop over `dst_xforms`: `dst_path` is rebound to each `re.sub` result in turn. */
  method RewritePath(env: Env, xforms: seq<Xform>, srcPath: Path) returns (dstPath: Path)
    ensures dstPath == ApplyXforms(env, xforms, srcPath)
  {
    dstPath := srcPath;
    var t := 0;
    while t < |xforms|
      invariant 0 <= t <= |xforms|
      invariant ApplyXforms(env, xforms[t..], dstPath) == ApplyXforms(env, xforms, srcPath)
    {
      dstPath := env.reSub(xforms[t].pattern, xforms[t].replacement, dstPath);
      t := t + 1;
    }
  }

  // ---------------------------------------------------------------------------
  // Properties of the destination computation and of the issued calls
  // ---------------------------------------------------------------------------

  /** The specs from `i` on: spec `i`'s calls, then the rest. */
  lemma SpecsActionsStep(env: Env, allFiles: seq<Path>, specs: seq<InstallSpec>, i: nat, dstRoot: Option<Path>,
                         subs: Substitutions)
    requires i < |specs|
    ensures SpecsActions(env, allFiles, specs[i..], dstRoot, subs) ==
            SpecActions(env, allFiles, specs[i], dstRoot, subs) + SpecsActions(env, allFiles, specs[i + 1..], dstRoot, subs)
  {
    assert specs[i..][0] == specs[i] && specs[i..][1..] == specs[i + 1..];
  }

  /** The files from `j` on: file `j`'s two calls, then the rest. */
  lemma CopyActionsStep(env: Env, files: seq<Path>, j: nat, xforms: seq<Xform>, dstDir: Option<Path>,
                        dstRoot: Option<Path>)
    requires j < |files|
    ensures var dst := Destination(env, xforms, dstDir, dstRoot, files[j]);
            CopyActions(env, files[j..], xforms, dstDir, dstRoot) ==
            [MakePath(env.dirname(dst)), Copy(files[j], dst)] + CopyActions(env, files[j + 1..], xforms, dstDir, dstRoot)
  {
    assert files[j..][0] == files[j] && files[j..][1..] == files[j + 1..];
  }

  /** Applying a chain `xs + ys` is applying `ys` to the result of applying `xs`. */
  lemma {:induction false} ApplyXformsCompose(env: Env, xs: seq<Xform>, ys: seq<Xform>, path: Path)
    ensures ApplyXforms(env, xs + ys, path) == ApplyXforms(env, ys, ApplyXforms(env, xs, path))
    decreases |xs|
  {
    if xs == [] {
      assert xs + ys == ys;
    } else {
      assert (xs + ys)[0] == xs[0] && (xs + ys)[1..] == xs[1..] + ys;
      ApplyXformsCompose(env, xs[1..], ys, env.reSub(xs[0].pattern, xs[0].replacement, path));
    }
  }

  /** A chain of one rewrite is exactly one `re.sub` call. */
  lemma ApplyXformsSingle(env: Env, x: Xform, path: Path)
    ensures ApplyXforms(env, [x], path) == env.reSub(x.pattern, x.replacement, path)
  {
  }

  /** Specs are independent: the calls for `a + b` are the calls for `a` followed by those
      for `b`, because each spec's selection starts from an empty list. */
  lemma {:induction false} SpecsActionsConcat(env: Env, allFiles: seq<Path>, a: seq<InstallSpec>, b: seq<InstallSpec>,
                                            dstRoot: Option<Path>, subs: Substitutions)
    ensures SpecsActions(env, allFiles, a + b, dstRoot, subs)
            == SpecsActions(env, allFiles, a, dstRoot, subs) + SpecsActions(env, allFiles, b, dstRoot, subs)
    decreases |a|
  {
    if a == [] {
      assert a + b == b;
    } else {
      assert (a + b)[0] == a[0] && (a + b)[1..] == a[1..] + b;
      SpecsActionsConcat(env, allFiles, a[1..], b, dstRoot, subs);
    }
  }

  /** The calls for a file list alternate `mkpath(dirname(dst))` and `copy_file(src, dst)`,
      two per file, in file-list order, with `src` the selected path itself. */
  lemma {:induction false} CopyActionsAt(env: Env, files: seq<Path>, xforms: seq<Xform>, dstDir: Option<Path>,
                                       dstRoot: Option<Path>, k: nat)
    requires k < |files|
    ensures |CopyActions(env, files, xforms, dstDir, dstRoot)| == 2 * |files|
    ensures var dst := Destination(env, xforms, dstDir, dstRoot, files[k]);
            CopyActions(env, files, xforms, dstDir, dstRoot)[2 * k] == MakePath(env.dirname(dst)) &&
            CopyActions(env, files, xforms, dstDir, dstRoot)[2 * k + 1] == Copy(files[k], dst)
    decreases |files|
  {
    if k > 0 {
      CopyActionsAt(env, files[1..], xforms, dstDir, dstRoot, k - 1);
    } else if |files| > 1 {
      CopyActionsAt(env, files[1..], xforms, dstDir, dstRoot, 0);
    }
  }

  /** Every copy a spec issues takes one of the files its own template selected, as is
      (not joined with `src_root`), to that file's computed destination. */
  lemma {:induction false} CopiesComeFromTemplate(env: Env, allFiles: seq<Path>, spec: InstallSpec,
                                                dstRoot: Option<Path>, subs: Substitutions, a: Action)
    requires a in SpecActions(env, allFiles, spec, dstRoot, subs) && a.Copy?
    ensures a.src in Selected(env, allFiles, spec.template, subs)
    ensures a.dst == Destination(env, ChainOf(spec), SubstOpt(env, spec.dstDir, subs), dstRoot, a.src)
  {
    CopiesComeFromFiles(env, Selected(env, allFiles, spec.template, subs), ChainOf(spec),
                        SubstOpt(env, spec.dstDir, subs), dstRoot, a);
  }

  lemma {:induction false} CopiesComeFromFiles(env: Env, files: seq<Path>, xforms: seq<Xform>, dstDir: Option<Path>,
                                             dstRoot: Option<Path>, a: Action)
    requires a in CopyActions(env, files, xforms, dstDir, dstRoot) && a.Copy?
    ensures a.src in files && a.dst == Destination(env, xforms, dstDir, dstRoot, a.src)
    decreases |files|
  {
    var dst := Destination(env, xforms, dstDir, dstRoot, files[0]);
    if a != Copy(files[0], dst) {
      assert a in CopyActions(env, files[1..], xforms, dstDir, dstRoot);
      CopiesComeFromFiles(env, files[1..], xforms, dstDir, dstRoot, a);
    }
  }

  // ---------------------------------------------------------------------------
  // Where substitution applies
  // ---------------------------------------------------------------------------

  /** `subst_vars` gives the same text for `s` under both substitution dicts. */
  predicate SameSubst(env: Env, s1: Substitutions, s2: Substitutions, s: string)
  {
    env.substVars(s, s1) == env.substVars(s, s2)
  }

  predicate SameSubstOpt(env: Env, s1: Substitutions, s2: Substitutions, s: Option<string>)
  {
    s.Some? ==> SameSubst(env, s1, s2, s.value)
  }

  /** The specs' `dst_dir`s and template lines all substitute alike under both dicts. */
  predicate SpecsSubstituteAlike(env: Env, s1: Substitutions, s2: Substitutions, specs: seq<InstallSpec>)
  {
    forall i :: 0 <= i < |specs| ==>
      SameSubstOpt(env, s1, s2, specs[i].dstDir) &&
      forall k :: 0 <= k < |specs[i].template| ==> SameSubst(env, s1, s2, specs[i].template[k])
  }

  /** The substitutions are consulted only on `src_root`, `dst_root`, each `dst_dir` and
      each template line: dicts that agree there give the same calls. In particular the
      rewrite patterns and replacements, and the selected paths, are never substituted. */
  lemma SubstitutionScope(env: Env, specs: seq<InstallSpec>, dstRoot: Option<Path>, srcRoot: Option<Path>,
                          s1: Substitutions, s2: Substitutions)
    requires SameSubstOpt(env, s1, s2, srcRoot) && SameSubstOpt(env, s1, s2, dstRoot)
    requires SpecsSubstituteAlike(env, s1, s2, specs)
    ensures TreeActions(env, specs, dstRoot, srcRoot, s1) == TreeActions(env, specs, dstRoot, srcRoot, s2)
  {
    SpecsSubstitutionScope(env, env.findAll(SubstOpt(env, srcRoot, s1)), specs, SubstOpt(env, dstRoot, s1), s1, s2);
  }

  lemma {:induction false} SpecsSubstitutionScope(env: Env, allFiles: seq<Path>, specs: seq<InstallSpec>,
                                                dstRoot: Option<Path>, s1: Substitutions, s2: Substitutions)
    requires SpecsSubstituteAlike(env, s1, s2, specs)
    ensures SpecsActions(env, allFiles, specs, dstRoot, s1) == SpecsActions(env, allFiles, specs, dstRoot, s2)
    decreases |specs|
  {
    if specs != [] {
      var spec := specs[0];
      assert SameSubstOpt(env, s1, s2, spec.dstDir);
      SelectSubstitutionScope(env, allFiles, [], spec.template, s1, s2);
      assert SpecsSubstituteAlike(env, s1, s2, specs[1..]) by {
        forall i | 0 <= i < |specs[1..]|
          ensures SameSubstOpt(env, s1, s2, specs[1..][i].dstDir) &&
                  forall k :: 0 <= k < |specs[1..][i].template| ==> SameSubst(env, s1, s2, specs[1..][i].template[k])
        {
          assert specs[1..][i] == specs[i + 1];
        }
      }
      SpecsSubstitutionScope(env, allFiles, specs[1..], dstRoot, s1, s2);
    }
  }

  lemma {:induction false} SelectSubstitutionScope(env: Env, allFiles: seq<Path>, files: seq<Path>, lines: seq<string>,
                                                 s1: Substitutions, s2: Substitutions)
    requires forall k :: 0 <= k < |lines| ==> SameSubst(env, s1, s2, lines[k])
    ensures SelectFrom(env, allFiles, files, lines, s1) == SelectFrom(env, allFiles, files, lines, s2)
    decreases |lines|
  {
    if lines != [] {
      assert SameSubst(env, s1, s2, lines[0]);
      var next := env.processTemplateLine(allFiles, files, env.substVars(lines[0], s1));
      assert forall k :: 0 <= k < |lines[1..]| ==> SameSubst(env, s1, s2, lines[1..][k]) by {
        forall k | 0 <= k < |lines[1..]| ensures SameSubst(env, s1, s2, lines[1..][k]) {
          assert lines[1..][k] == lines[k + 1];
        }
      }
      SelectSubstitutionScope(env, allFiles, next, lines[1..], s1, s2);
    }
  }

  // ---------------------------------------------------------------------------
  // The destination tree the calls produce
  // ---------------------------------------------------------------------------

  /** A destination tree: the directories made, and for each file written the source path
      whose content it holds. */
  datatype Tree = Tree(dirs: set<Path>, files: map<Path, Path>)

  /** The effect of one call: `mkpath` adds a directory (an empty name makes nothing),
      `copy_file` overwrites the destination. */
  function Step(t: Tree, a: Action): Tree
  {
    match a
    case MakePath(d) => if d == "" then t else t.(dirs := t.dirs + {d})
    case Copy(s, d) => t.(files := t.files[d := s])
  }

  /** The tree after performing the calls in order. */
  function Perform(t: Tree, actions: seq<Action>): Tree
    decreases |actions|
  {
    if actions == [] then t else Perform(Step(t, actions[0]), actions[1..])
  }

  /** The directories the calls make: every non-empty name given to `mkpath`. */
  function Made(actions: seq<Action>): set<Path>
    decreases |actions|
  {
    if actions == [] then {}
    else (if actions[0].MakePath? && actions[0].dir != "" then {actions[0].dir} else {}) + Made(actions[1..])
  }

  /** For each destination, the source of the last copy to it. */
  function Writes(actions: seq<Action>): map<Path, Path>
    decreases |actions|
  {
    if actions == [] then map[]
    else (if actions[0].Copy? then map[actions[0].dst := actions[0].src] else map[]) + Writes(actions[1..])
  }

  /** Performing calls adds the directories they make and overwrites the files they write;
      nothing else in the tree changes. */
  lemma {:induction false} PerformEffect(t: Tree, actions: seq<Action>)
    ensures Perform(t, actions) == Tree(t.dirs + Made(actions), t.files + Writes(actions))
    decreases |actions|
  {
    if actions != [] {
      var a := actions[0];
      PerformEffect(Step(t, a), actions[1..]);
      var w := if a.Copy? then map[a.dst := a.src] else map[];
      var m: set<Path> := if a.MakePath? && a.dir != "" then {a.dir} else {};
      assert Step(t, a) == Tree(t.dirs + m, t.files + w);
      MergeAssoc(t.files, w, Writes(actions[1..]));
      assert (t.dirs + m) + Made(actions[1..]) == t.dirs + (m + Made(actions[1..]));
    }
  }

  /** Merging maps is associative: later entries win either way. */
  lemma MergeAssoc(m1: map<Path, Path>, m2: map<Path, Path>, m3: map<Path, Path>)
    ensures (m1 + m2) + m3 == m1 + (m2 + m3)
  {
  }

  /** Installing twice leaves the same tree as installing once. */
  lemma InstallIsIdempotent(t: Tree, actions: seq<Action>)
    ensures Perform(Perform(t, actions), actions) == Perform(t, actions)
  {
    PerformEffect(t, actions);
    PerformEffect(Perform(t, actions), actions);
    var w := Writes(actions);
    assert (t.files + w) + w == t.files + w;
  }

  /** The content left at `dst` comes from the last copy issued to it. */
  lemma {:induction false} LastCopyWins(actions: seq<Action>, k: nat)
    requires k < |actions| && actions[k].Copy?
    requires forall j :: k < j < |actions| ==> !(actions[j].Copy? && actions[j].dst == actions[k].dst)
    ensures actions[k].dst in Writes(actions) && Writes(actions)[actions[k].dst] == actions[k].src
    decreases |actions|
  {
    var d := actions[k].dst;
    if k == 0 {
      WritesMissing(actions[1..], d);
    } else {
      LastCopyWins(actions[1..], k - 1);
    }
  }

  /** Calls that never copy to `d` do not write it. */
  lemma {:induction false} WritesMissing(actions: seq<Action>, d: Path)
    requires forall j :: 0 <= j < |actions| ==> !(actions[j].Copy? && actions[j].dst == d)
    ensures d !in Writes(actions)
    decreases |actions|
  {
    if actions != [] {
      WritesMissing(actions[1..], d);
    }
  }

  /** When two groups of specs write the same destination, the later group's copy is what
      the finished tree holds there. */
  lemma LaterSpecWins(env: Env, allFiles: seq<Path>, a: seq<InstallSpec>, b: seq<InstallSpec>,
                      dstRoot: Option<Path>, subs: Substitutions, t: Tree, d: Path)
    requires d in Writes(SpecsActions(env, allFiles, b, dstRoot, subs))
    ensures d in Perform(t, SpecsActions(env, allFiles, a + b, dstRoot, subs)).files
    ensures Perform(t, SpecsActions(env, allFiles, a + b, dstRoot, subs)).files[d]
            == Writes(SpecsActions(env, allFiles, b, dstRoot, subs))[d]
  {
    var A := SpecsActions(env, allFiles, a, dstRoot, subs);
    var B := SpecsActions(env, allFiles, b, dstRoot, subs);
    SpecsActionsConcat(env, allFiles, a, b, dstRoot, subs);
    PerformEffect(Perform(t, A), B);
    PerformConcat(t, A, B);
  }

  /** Performing `a + b` is performing `a`, then `b`. */
  lemma {:induction false} PerformConcat(t: Tree, a: seq<Action>, b: seq<Action>)
    ensures Perform(t, a + b) == Perform(Perform(t, a), b)
    decreases |a|
  {
    if a == [] {
      assert a + b == b;
    } else {
      assert (a + b)[0] == a[0] && (a + b)[1..] == a[1..] + b;
      PerformConcat(Step(t, a[0]), a[1..], b);
    }
  }
}
