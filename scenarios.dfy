/** Worked cases of output-name derivation, one per edge case of `generate_output_name`. */
module Scenarios {
  import opened PyLib
  import opened WebSnatcher

  /** "https://example.com/" has path "/": no segment, so the base name is "index". */
  lemma RootPathGivesIndex()
    ensures BaseName("/") == "index"
  {
    IndexForEmptyPath("/");
    SplitExtNoDot("index");
    SubNonWordKeepsWords("index");
  }

  /**
   "https://example.com/reports/q1.html" and its like: a word-character stem
   with one extension, under any directory, gives the stem ("q1").
   */
  lemma ExtensionStripped(dir: string, stem: string, ext: string)
    requires dir == "" || dir[|dir| - 1] == '/'
    requires stem != "" && AllWord(stem)
    requires '.' !in ext && '/' !in ext
    ensures BaseName(dir + stem + "." + ext) == stem
  {
    var segment := stem + "." + ext;
    assert '/' !in segment by {
      assert forall i :: 0 <= i < |segment| ==> segment[i] == (if i < |stem| then stem[i] else if i == |stem| then '.' else ext[i - |stem| - 1]);
    }
    BaseSegmentIsLast(dir, segment, "");
    assert dir + segment + "" == dir + stem + "." + ext;
    assert !OnlyDots(stem) by { assert IsWordChar(stem[0]); }
    assert '/' !in stem by { assert forall i :: 0 <= i < |stem| ==> IsWordChar(stem[i]); }
    SplitExtAtLastDot(stem, ext);
    SubNonWordKeepsWords(stem);
  }

  /** A trailing slash does not matter: ".../guide/" names the file after "guide". */
  lemma TrailingSlashIgnored(dir: string, name: string)
    requires dir == "" || dir[|dir| - 1] == '/'
    requires name != "" && AllWord(name)
    ensures BaseName(dir + name + "/") == name
  {
    assert forall i :: 0 <= i < |name| ==> IsWordChar(name[i]);
    assert '/' !in name && '.' !in name;
    BaseSegmentIsLast(dir, name, "/");
    SplitExtNoDot(name);
    SubNonWordKeepsWords(name);
  }

  /** Only leading dots: ".bashrc" has no extension. */
  lemma LeadingDotKept()
    ensures SplitExt(".bashrc") == (".bashrc", "")
  {
    SplitExtLeadingDots(".", "bashrc");
    assert "." + "bashrc" == ".bashrc";
  }

  /** Only the last extension goes: "a.tar.gz" keeps "a.tar". */
  lemma LastExtensionOnly()
    ensures SplitExt("a.tar.gz") == ("a.tar", ".gz")
  {
    assert !OnlyDots("a.tar") by { assert "a.tar"[0] != '.'; }
    SplitExtAtLastDot("a.tar", "gz");
    assert "a.tar" + "." + "gz" == "a.tar.gz";
  }

  /** A run of several non-word characters collapses to one underscore. */
  lemma RunCollapses()
    ensures SubNonWord("a -b") == "a_b"
  {
    SubNonWordRun("a", " -", "b");
    assert "a" + " -" + "b" == "a -b";
    SubNonWordKeepsWords("b");
  }

  /** An underscore is a word character: it is kept, next to the one a run became. */
  lemma UnderscoreKept()
    ensures SubNonWord("a_-b") == "a__b"
  {
    assert "a_-b" == "a_" + "-" + "b";
    SubNonWordRun("a_", "-", "b");
    SubNonWordKeepsWords("b");
    assert "a_" + "_" + "b" == "a__b";
  }
}
