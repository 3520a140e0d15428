/**
 * The documentation manifest that `install_doc` passes to the tree transformer, and
 * what its rewrite chains do to sample paths.
 */
module DocManifest {
  import opened Common
  import opened TreeCopy

  /** `doc_manifest`: four install specs, in the order they are installed. */
  const Manifest: seq<InstallSpec> := [
    InstallSpec(
      ["include README.md LICENSE* docs/ChangeLog",
       "recursive-include doc *.py *.txt",
       "prune docs/examples/pki",
       "prune docs/sphinx"],
      Some([Xform("^docs/", "")]),
      None),
    InstallSpec(
      ["recursive-include test run_tests setup_certs.py test_*.py util.py *.txt",
       "prune test/pki"],
      None,
      None),
    InstallSpec(
      ["recursive-include lib *.py *.txt"],
      Some([Xform("^lib/", "")]),
      Some("examples")),
    InstallSpec(
      ["recursive-include build/sphinx/html *"],
      Some([Xform("^build/sphinx/", "api/")]),
      None)
  ]

  /** `re.sub` for a pattern `^` followed by literal text: when the path starts with that
      text, the text is replaced once, otherwise the path is unchanged. Every pattern in
      the manifest has this form and holds no other regular-expression syntax, and no
      replacement holds a backslash, so on them this is what `re.sub` computes. */
  function AnchoredSub(pattern: string, replacement: string, path: string): string
  {
    if |pattern| > 0 && pattern[0] == '^' && pattern[1..] <= path
    then replacement + path[|pattern| - 1..]
    else path
  }

  /** Every rewrite of the manifest is an anchored literal prefix without backslashes in
      its replacement, and only the second spec (the tests) names no rewrite. */
  lemma ManifestRewritesAreAnchoredPrefixes()
    ensures |Manifest| == 4
    ensures forall i, k :: 0 <= i < |Manifest| && 0 <= k < |ChainOf(Manifest[i])| ==>
              ChainOf(Manifest[i])[k].pattern[0] == '^' && '\\' !in ChainOf(Manifest[i])[k].replacement
    ensures ChainOf(Manifest[1]) == [] && Manifest[1].dstDir.None?
  {
  }

  /** The rewrite chains and destination sub-directories of the four specs. */
  lemma ManifestChains()
    ensures ChainOf(Manifest[0]) == [Xform("^docs/", "")] && Manifest[0].dstDir == None
    ensures ChainOf(Manifest[1]) == [] && Manifest[1].dstDir == None
    ensures ChainOf(Manifest[2]) == [Xform("^lib/", "")] && Manifest[2].dstDir == Some("examples")
    ensures ChainOf(Manifest[3]) == [Xform("^build/sphinx/", "api/")] && Manifest[3].dstDir == None
  {
  }

  /** With `re.sub` of the first spec's one rewrite behaving as on an anchored prefix, the
      first spec moves `docs/` files to the top of the destination and leaves other files
      where they are. */
  lemma DocsMoveToTop(env: Env)
    requires forall s :: env.reSub("^docs/", "", s) == AnchoredSub("^docs/", "", s)
    ensures ApplyXforms(env, ChainOf(Manifest[0]), "docs/ChangeLog") == "ChangeLog"
    ensures ApplyXforms(env, ChainOf(Manifest[0]), "README.md") == "README.md"
  {
    ManifestChains();
    var x := Xform("^docs/", "");
    assert x.pattern[1..] == "docs/";
    assert "docs/" <= "docs/ChangeLog";
    assert "README.md"[0] != "docs/"[0];
    ApplyXformsSingle(env, x, "docs/ChangeLog");
    ApplyXformsSingle(env, x, "README.md");
  }

  /** The built HTML lands under `api/`. */
  lemma HtmlMovesToApi(env: Env)
    requires forall s :: env.reSub("^build/sphinx/", "api/", s) == AnchoredSub("^build/sphinx/", "api/", s)
    ensures ApplyXforms(env, ChainOf(Manifest[3]), "build/sphinx/html/index.html") == "api/html/index.html"
  {
    ManifestChains();
    var x := Xform("^build/sphinx/", "api/");
    assert x.pattern[1..] == "build/sphinx/";
    assert "build/sphinx/" <= "build/sphinx/html/index.html";
    ApplyXformsSingle(env, x, "build/sphinx/html/index.html");
  }

  /** Example programs lose their `lib/` prefix and are re-rooted under the substituted
      `examples` directory and then under the destination root. */
  lemma ExamplesMoveUnderExamples(env: Env, subs: Substitutions, dstRoot: Path)
    requires forall s :: env.reSub("^lib/", "", s) == AnchoredSub("^lib/", "", s)
    ensures Destination(env, ChainOf(Manifest[2]), SubstOpt(env, Manifest[2].dstDir, subs), Some(dstRoot),
                        "lib/ssl_example.py")
            == env.changeRoot(dstRoot, env.changeRoot(env.substVars("examples", subs), "ssl_example.py"))
  {
    ManifestChains();
    var x := Xform("^lib/", "");
    assert x.pattern[1..] == "lib/";
    assert "lib/" <= "lib/ssl_example.py";
    ApplyXformsSingle(env, x, "lib/ssl_example.py");
    assert "lib/ssl_example.py"[4..] == "ssl_example.py";
    assert ApplyXforms(env, ChainOf(Manifest[2]), "lib/ssl_example.py") == "ssl_example.py";
  }

  /** The test files keep their paths and are only re-rooted under the destination root. */
  lemma TestsKeepTheirPaths(env: Env, subs: Substitutions, dstRoot: Path, src: Path)
    ensures Destination(env, ChainOf(Manifest[1]), SubstOpt(env, Manifest[1].dstDir, subs), Some(dstRoot), src)
            == env.changeRoot(dstRoot, src)
  {
    ManifestChains();
  }
}
