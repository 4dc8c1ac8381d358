/**
 * Worked examples of `clean_text`: the entity decoding order, the text that
 * survives it, and why cleaning twice is not the same as cleaning once.
 */
module CleanTextExamples {
  import opened Wrappers
  import opened Strings
  import opened Whitespace
  import opened CleanText

  // "&amp;quot;": the `&quot;` pass finds nothing, the `&amp;` pass then
  // produces "&quot;", and no later pass touches it.
  lemma QuotOfAmpStep1() ensures ReplaceAll("&amp;quot;", "&quot;", "\"") == "&amp;quot;"
  {
    assert "&amp;quot;"[..6][1] != "&quot;"[1];
    assert "&amp;quot;"[1..] == "amp;quot;";
    ReplaceAbsentFirst("amp;quot;", "&quot;", "\"");
  }
  lemma QuotOfAmpStep2() ensures ReplaceAll("&amp;quot;", "&amp;", "&") == "&quot;" {}
  lemma QuotUntouchedLt() ensures ReplaceAll("&quot;", "&lt;", "<") == "&quot;" {}
  lemma QuotUntouchedGt() ensures ReplaceAll("&quot;", "&gt;", ">") == "&quot;" {}
  lemma QuotUntouchedApos() ensures ReplaceAll("&quot;", "&#39;", "'") == "&quot;" {}

  lemma QuotOfAmpDecoded() ensures DecodeEntities("&amp;quot;") == "&quot;"
  {
    QuotOfAmpStep1();
    QuotOfAmpStep2();
    QuotUntouchedLt();
    QuotUntouchedGt();
    QuotUntouchedApos();
  }
  // A literal without whitespace is shown so through the recursive `NoWhitespace`,
  // which Dafny checks by unfolding; `NoWhitespaceFixed` turns that into the
  // quantified whitespace normal form.
  lemma QuotNoWhitespace() ensures NoWhitespace("&quot;") {}

  /** A double-escaped quote comes out single-escaped. */
  lemma DoubleEscapedQuote()
    ensures Clean(Some("&amp;quot;")) == "&quot;"
  {
    QuotOfAmpDecoded();
    QuotNoWhitespace();
    NoWhitespaceFixed("&quot;");
  }

  /** A single-escaped quote is decoded. */
  lemma EscapedQuote()
    ensures Clean(Some("&quot;")) == "\""
  {
    assert ReplaceAll("&quot;", "&quot;", "\"") == "\"";
    ReplaceAbsentFirst("\"", "&amp;", "&");
    ReplaceAbsentFirst("\"", "&lt;", "<");
    ReplaceAbsentFirst("\"", "&gt;", ">");
    ReplaceAbsentFirst("\"", "&#39;", "'");
    assert NoWhitespace("\"");
    NoWhitespaceFixed("\"");
  }

  /** Cleaning is not idempotent: a second pass decodes what the first produced. */
  lemma NotIdempotent()
    ensures Clean(Some(Clean(Some("&amp;quot;")))) != Clean(Some("&amp;quot;"))
  {
    DoubleEscapedQuote();
    EscapedQuote();
  }

  // "&amp;amp;": only the outer escape is removed.
  lemma AmpOfAmpStep1() ensures ReplaceAll("&amp;amp;", "&quot;", "\"") == "&amp;amp;"
  {
    assert "&amp;amp;"[..6][1] != "&quot;"[1];
    assert "&amp;amp;"[1..] == "amp;amp;";
    ReplaceAbsentFirst("amp;amp;", "&quot;", "\"");
  }
  lemma AmpOfAmpStep2() ensures ReplaceAll("&amp;amp;", "&amp;", "&") == "&amp;" {}
  lemma AmpUntouchedLt() ensures ReplaceAll("&amp;", "&lt;", "<") == "&amp;" {}
  lemma AmpUntouchedGt() ensures ReplaceAll("&amp;", "&gt;", ">") == "&amp;" {}
  lemma AmpUntouchedApos() ensures ReplaceAll("&amp;", "&#39;", "'") == "&amp;"
  {
    assert "&amp;"[..5][1] != "&#39;"[1];
  }
  lemma AmpOfAmpDecoded() ensures DecodeEntities("&amp;amp;") == "&amp;"
  {
    AmpOfAmpStep1();
    AmpOfAmpStep2();
    AmpUntouchedLt();
    AmpUntouchedGt();
    AmpUntouchedApos();
  }
  lemma AmpNoWhitespace() ensures NoWhitespace("&amp;") {}

  /** A double-escaped ampersand comes out single-escaped: `&amp;` can survive cleaning. */
  lemma DoubleEscapedAmp()
    ensures Clean(Some("&amp;amp;")) == "&amp;"
  {
    AmpOfAmpDecoded();
    AmpNoWhitespace();
    NoWhitespaceFixed("&amp;");
  }

  // "&amp;lt;": the `&amp;` pass runs before the `&lt;` pass, so both escapes go.
  lemma LtOfAmpStep1() ensures ReplaceAll("&amp;lt;", "&quot;", "\"") == "&amp;lt;"
  {
    assert "&amp;lt;"[..6][1] != "&quot;"[1];
    assert "&amp;lt;"[1..] == "amp;lt;";
    ReplaceAbsentFirst("amp;lt;", "&quot;", "\"");
  }
  lemma LtOfAmpStep2() ensures ReplaceAll("&amp;lt;", "&amp;", "&") == "&lt;"
  {
    assert "&amp;lt;"[..5] == "&amp;" && "&amp;lt;"[5..] == "lt;";
  }
  lemma LtOfAmpStep3() ensures ReplaceAll("&lt;", "&lt;", "<") == "<"
  {
    assert "&lt;"[..4] == "&lt;" && "&lt;"[4..] == [];
  }

  lemma LtOfAmpDecoded() ensures DecodeEntities("&amp;lt;") == "<"
  {
    LtOfAmpStep1();
    LtOfAmpStep2();
    LtOfAmpStep3();
    ReplaceAbsentFirst("<", "&gt;", ">");
    ReplaceAbsentFirst("<", "&#39;", "'");
  }

  /** A double-escaped less-than sign is decoded all the way. */
  lemma DoubleEscapedLt()
    ensures Clean(Some("&amp;lt;")) == "<"
  {
    LtOfAmpDecoded();
    assert NoWhitespace("<");
    NoWhitespaceFixed("<");
  }

  lemma BlankDecoded() ensures DecodeEntities(" \t\n") == " \t\n"
  {
    ReplaceAbsentFirst(" \t\n", "&quot;", "\"");
    ReplaceAbsentFirst(" \t\n", "&amp;", "&");
    ReplaceAbsentFirst(" \t\n", "&lt;", "<");
    ReplaceAbsentFirst(" \t\n", "&gt;", ">");
    ReplaceAbsentFirst(" \t\n", "&#39;", "'");
  }

  /** A present but blank cell cleans to the empty string, just like a missing one. */
  lemma BlankIsEmpty()
    ensures Clean(Some(" \t\n")) == ""
  {
    BlankDecoded();
    assert SkipSpaces(" \t\n", 0) == 3;
  }

  lemma MixedWhitespaceDecoded() ensures DecodeEntities("a   b\n\tc") == "a   b\n\tc"
  {
    ReplaceAbsentFirst("a   b\n\tc", "&quot;", "\"");
    ReplaceAbsentFirst("a   b\n\tc", "&amp;", "&");
    ReplaceAbsentFirst("a   b\n\tc", "&lt;", "<");
    ReplaceAbsentFirst("a   b\n\tc", "&gt;", ">");
    ReplaceAbsentFirst("a   b\n\tc", "&#39;", "'");
  }

  lemma MixedWhitespaceSplit() ensures Split("a   b\n\tc") == ["a", "b", "c"]
  {
    var s := "a   b\n\tc";
    assert SkipSpaces(s, 8) == 8 && SplitFrom(s, 8) == [];
    assert SkipSpaces(s, 5) == 7 && WordEnd(s, 7) == 8 && s[7..8] == "c";
    assert SplitFrom(s, 5) == ["c"];
    assert SkipSpaces(s, 1) == 4 && WordEnd(s, 4) == 5 && s[4..5] == "b";
    assert SplitFrom(s, 1) == ["b", "c"];
    assert SkipSpaces(s, 0) == 0 && WordEnd(s, 0) == 1 && s[0..1] == "a";
  }

  lemma JoinABC() ensures JoinSpaces(["a", "b", "c"]) == "a b c"
  {
    assert JoinSpaces(["c"]) == "c";
    assert ["a", "b", "c"][1..] == ["b", "c"] && ["b", "c"][1..] == ["c"];
  }

  /** Every run of whitespace, of any kind and length, becomes one space. */
  lemma MixedWhitespace()
    ensures Clean(Some("a   b\n\tc")) == "a b c"
  {
    var t := "a   b\n\tc";
    CleanNormal(Some(t));
    MixedWhitespaceDecoded();
    MixedWhitespaceSplit();
    JoinABC();
    assert Collapse(t) == "a b c";
  }

  // "a &amp; b &lt;c&gt; &quot;d&quot; &#39;e&#39;": each word decodes on its own.
  lemma AmpWord() ensures DecodeEntities("&amp;") == "&"
  {
    assert ReplaceAll("&amp;", "&amp;", "&") == "&";
  }
  lemma AngleStep1() ensures ReplaceAll("&lt;c&gt;", "&quot;", "\"") == "&lt;c&gt;"
  {
    ReplaceNoSecond("&lt;c&gt;", "&quot;", "\"");
  }
  lemma AngleStep2() ensures ReplaceAll("&lt;c&gt;", "&amp;", "&") == "&lt;c&gt;"
  {
    ReplaceNoSecond("&lt;c&gt;", "&amp;", "&");
  }
  lemma AngleStep3() ensures ReplaceAll("&lt;c&gt;", "&lt;", "<") == "<c&gt;"
  {
    assert "&lt;c&gt;" == "&lt;" + "c&gt;";
    ReplaceFront("&lt;", "c&gt;", "<");
    ReplaceNoSecond("c&gt;", "&lt;", "<");
  }
  lemma AngleStep4() ensures ReplaceAll("<c&gt;", "&gt;", ">") == "<c>"
  {
    assert "<c&gt;" == "<c" + ("&gt;" + "");
    ReplaceKeepsPlainPrefix("<c", "&gt;" + "", "&gt;", ">");
    ReplaceFront("&gt;", "", ">");
  }

  lemma AngleWord() ensures DecodeEntities("&lt;c&gt;") == "<c>"
  {
    AngleStep1();
    AngleStep2();
    AngleStep3();
    AngleStep4();
    ReplaceAbsentFirst("<c>", "&#39;", "'");
  }

  lemma QuotStep() ensures ReplaceAll("&quot;d&quot;", "&quot;", "\"") == "\"d\""
  {
    assert "&quot;d&quot;" == "&quot;" + ("d" + ("&quot;" + ""));
    ReplaceFront("&quot;", "d" + ("&quot;" + ""), "\"");
    ReplaceKeepsPlainPrefix("d", "&quot;" + "", "&quot;", "\"");
    ReplaceFront("&quot;", "", "\"");
  }

  lemma QuotWord() ensures DecodeEntities("&quot;d&quot;") == "\"d\""
  {
    QuotStep();
    ReplaceAbsentFirst("\"d\"", "&amp;", "&");
    ReplaceAbsentFirst("\"d\"", "&lt;", "<");
    ReplaceAbsentFirst("\"d\"", "&gt;", ">");
    ReplaceAbsentFirst("\"d\"", "&#39;", "'");
  }

  lemma AposStep() ensures ReplaceAll("&#39;e&#39;", "&#39;", "'") == "'e'"
  {
    assert "&#39;e&#39;" == "&#39;" + ("e" + ("&#39;" + ""));
    ReplaceFront("&#39;", "e" + ("&#39;" + ""), "'");
    ReplaceKeepsPlainPrefix("e", "&#39;" + "", "&#39;", "'");
    ReplaceFront("&#39;", "", "'");
  }

  lemma AposStep1() ensures ReplaceAll("&#39;e&#39;", "&quot;", "\"") == "&#39;e&#39;"
  {
    ReplaceNoSecond("&#39;e&#39;", "&quot;", "\"");
  }
  lemma AposStep2() ensures ReplaceAll("&#39;e&#39;", "&amp;", "&") == "&#39;e&#39;"
  {
    ReplaceNoSecond("&#39;e&#39;", "&amp;", "&");
  }
  lemma AposStep3() ensures ReplaceAll("&#39;e&#39;", "&lt;", "<") == "&#39;e&#39;"
  {
    ReplaceNoSecond("&#39;e&#39;", "&lt;", "<");
  }
  lemma AposStep4() ensures ReplaceAll("&#39;e&#39;", "&gt;", ">") == "&#39;e&#39;"
  {
    ReplaceNoSecond("&#39;e&#39;", "&gt;", ">");
  }

  lemma AposWord() ensures DecodeEntities("&#39;e&#39;") == "'e'"
  {
    AposStep1();
    AposStep2();
    AposStep3();
    AposStep4();
    AposStep();
  }

  lemma Sentence5()
    ensures DecodeEntities("&quot;d&quot;" + " " + "&#39;e&#39;")
      == "\"d\"" + " " + "'e'"
  {
    QuotWord();
    AposWord();
    DecodeAroundKnown("&quot;d&quot;", "&#39;e&#39;", "\"d\"", "'e'");
  }

  lemma Sentence4()
    ensures DecodeEntities("&lt;c&gt;" + " " + ("&quot;d&quot;" + " " + "&#39;e&#39;"))
      == "<c>" + " " + ("\"d\"" + " " + "'e'")
  {
    AngleWord();
    Sentence5();
    DecodeAroundKnown("&lt;c&gt;", "&quot;d&quot;" + " " + "&#39;e&#39;", "<c>", "\"d\"" + " " + "'e'");
  }

  lemma Sentence3()
    ensures DecodeEntities("b" + " " + ("&lt;c&gt;" + " " + ("&quot;d&quot;" + " " + "&#39;e&#39;")))
      == "b" + " " + ("<c>" + " " + ("\"d\"" + " " + "'e'"))
  {
    DecodePlain("b");
    Sentence4();
    DecodeAroundKnown("b", "&lt;c&gt;" + " " + ("&quot;d&quot;" + " " + "&#39;e&#39;"), "b", "<c>" + " " + ("\"d\"" + " " + "'e'"));
  }

  lemma Sentence2()
    ensures DecodeEntities("&amp;" + " " + ("b" + " " + ("&lt;c&gt;" + " " + ("&quot;d&quot;" + " " + "&#39;e&#39;"))))
      == "&" + " " + ("b" + " " + ("<c>" + " " + ("\"d\"" + " " + "'e'")))
  {
    AmpWord();
    Sentence3();
    DecodeAroundKnown("&amp;", "b" + " " + ("&lt;c&gt;" + " " + ("&quot;d&quot;" + " " + "&#39;e&#39;")), "&", "b" + " " + ("<c>" + " " + ("\"d\"" + " " + "'e'")));
  }

  lemma EntitiesDecoded()
    ensures DecodeEntities("a" + " " + ("&amp;" + " " + ("b" + " " + ("&lt;c&gt;" + " " + ("&quot;d&quot;" + " " + "&#39;e&#39;")))))
      == "a" + " " + ("&" + " " + ("b" + " " + ("<c>" + " " + ("\"d\"" + " " + "'e'"))))
  {
    DecodePlain("a");
    Sentence2();
    DecodeAroundKnown("a", "&amp;" + " " + ("b" + " " + ("&lt;c&gt;" + " " + ("&quot;d&quot;" + " " + "&#39;e&#39;"))), "a", "&" + " " + ("b" + " " + ("<c>" + " " + ("\"d\"" + " " + "'e'"))));
  }

  lemma DecodedWords()
    ensures JoinSpaces(["a", "&", "b", "<c>", "\"d\"", "'e'"])
      == "a" + " " + ("&" + " " + ("b" + " " + ("<c>" + " " + ("\"d\"" + " " + "'e'"))))
    ensures forall k :: 0 <= k < 6 ==> IsWord(["a", "&", "b", "<c>", "\"d\"", "'e'"][k])
  {
    JoinSpacesCons("\"d\"", ["'e'"]);
    JoinSpacesCons("<c>", ["\"d\"", "'e'"]);
    JoinSpacesCons("b", ["<c>", "\"d\"", "'e'"]);
    JoinSpacesCons("&", ["b", "<c>", "\"d\"", "'e'"]);
    JoinSpacesCons("a", ["&", "b", "<c>", "\"d\"", "'e'"]);
    assert ["a"] + ["&", "b", "<c>", "\"d\"", "'e'"] == ["a", "&", "b", "<c>", "\"d\"", "'e'"];
    assert ["&"] + ["b", "<c>", "\"d\"", "'e'"] == ["&", "b", "<c>", "\"d\"", "'e'"];
    assert ["b"] + ["<c>", "\"d\"", "'e'"] == ["b", "<c>", "\"d\"", "'e'"];
    assert ["<c>"] + ["\"d\"", "'e'"] == ["<c>", "\"d\"", "'e'"];
    assert ["\"d\""] + ["'e'"] == ["\"d\"", "'e'"];
  }

  /** The five entities of the sentence are decoded and its single spaces are kept. */
  lemma Entities()
    ensures Clean(Some("a" + " " + ("&amp;" + " " + ("b" + " " + ("&lt;c&gt;" + " " + ("&quot;d&quot;" + " " + "&#39;e&#39;"))))))
      == "a" + " " + ("&" + " " + ("b" + " " + ("<c>" + " " + ("\"d\"" + " " + "'e'"))))
  {
    var ws := ["a", "&", "b", "<c>", "\"d\"", "'e'"];
    EntitiesDecoded();
    CleanNormal(Some("a" + " " + ("&amp;" + " " + ("b" + " " + ("&lt;c&gt;" + " " + ("&quot;d&quot;" + " " + "&#39;e&#39;"))))));
    DecodedWords();
    JoinSpacesNormal(ws);
    CollapseFixesNormal(JoinSpaces(ws));
  }
}
