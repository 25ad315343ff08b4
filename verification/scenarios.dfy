/** The worked destination examples of the CLI's path planning. */
module Scenarios {
  import opened Strings
  import opened Matching
  import opened Paths
  import opened Extraction

  /** Flattened and lower-cased: only the plain name lands under the root. */
  lemma FlattenLowerScenario()
    ensures CliDestination(Entry("Hero.OGG", "Data/Sound/Hero.OGG"), "out/", false, true) == "out/hero.ogg"
  {
    assert Lower("Hero.OGG") == "hero.ogg";
  }

  /** Full path with archive separators: every `\` becomes `/`. */
  lemma FullPathScenario()
    ensures CliDestination(Entry("Hero.ogg", "Data\\Sound\\Hero.ogg"), "out/", true, false) == "out/Data/Sound/Hero.ogg"
  {
    var e := Entry("Hero.ogg", "Data\\Sound\\Hero.ogg");
    assert CliDestination(e, "out/", true, false) == SwapSeparators("out/" + e.fullPath);
    ScenarioRewrite();
  }

  lemma ScenarioRewrite()
    ensures SwapSeparators("out/" + "Data\\Sound\\Hero.ogg") == "out/Data/Sound/Hero.ogg"
  {
    var raw := "out/" + "Data\\Sound\\Hero.ogg";
    var r := SwapSeparators(raw);
    assert forall i :: 0 <= i < |raw| ==> r[i] == SwapChar(raw[i]);
  }

  const ScenarioDestination := "out/Data/Sound/Hero.ogg"

  /** The directories probed for that destination, shallowest first. */
  lemma FullPathChainScenario()
    ensures DirChain(ScenarioDestination) == ["out", "out/Data", "out/Data/Sound"]
  {
    var p := ScenarioDestination;
    ChainThroughSound();
    assert forall i :: 15 <= i < 23 ==> p[i] != '/';
    DirChainNoSlash(p, 15, 23);
    assert p[..23] == p;
  }

  lemma ChainThroughOut()
    ensures DirChain(ScenarioDestination[..4]) == ["out"]
  {
    var p := ScenarioDestination;
    assert p[..0] == [];
    assert forall i :: 0 <= i < 3 ==> p[i] != '/';
    DirChainNoSlash(p, 0, 3);
    SlashStep(p, 3);
    assert forall i :: 0 <= i < 3 ==> p[..3][i] == "out"[i];
    assert p[..3] == "out";
  }

  lemma ChainThroughData()
    ensures DirChain(ScenarioDestination[..9]) == ["out", "out/Data"]
  {
    var p := ScenarioDestination;
    ChainThroughOut();
    assert forall i :: 4 <= i < 8 ==> p[i] != '/';
    DirChainNoSlash(p, 4, 8);
    SlashStep(p, 8);
    assert forall i :: 0 <= i < 8 ==> p[..8][i] == "out/Data"[i];
    assert p[..8] == "out/Data";
  }

  lemma ChainThroughSound()
    ensures DirChain(ScenarioDestination[..15]) == ["out", "out/Data", "out/Data/Sound"]
  {
    var p := ScenarioDestination;
    ChainThroughData();
    assert forall i :: 9 <= i < 14 ==> p[i] != '/';
    DirChainNoSlash(p, 9, 14);
    SlashStep(p, 14);
    assert forall i :: 0 <= i < 14 ==> p[..14][i] == "out/Data/Sound"[i];
    assert p[..14] == "out/Data/Sound";
  }

  lemma SlashStep(p: string, i: nat)
    requires i < |p| && p[i] == '/'
    ensures DirChain(p[..i + 1]) == DirChain(p[..i]) + [p[..i]]
  {
    assert p[..i + 1][..i] == p[..i];
  }
}
