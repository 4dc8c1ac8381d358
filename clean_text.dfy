/**
 * `clean_text`: decode five HTML entities in a fixed order, collapse every
 * whitespace run to one space, and strip both ends. A missing cell becomes
 * the empty string.
 */
module CleanText {
  import opened Wrappers
  import opened Strings
  import opened Whitespace

  /** The five literal replacements, in the order `clean_text` performs them. */
  function DecodeEntities(t: string): (r: string)
    ensures |r| <= |t|
  {
    var t1 := ReplaceAll(t, "&quot;", "\"");
    var t2 := ReplaceAll(t1, "&amp;", "&");
    var t3 := ReplaceAll(t2, "&lt;", "<");
    var t4 := ReplaceAll(t3, "&gt;", ">");
    ReplaceAll(t4, "&#39;", "'")
  }

  /** Python's `clean_text(text)`; `None` is a missing value. */
  function Clean(text: Option<string>): (r: string)
    ensures text.None? ==> r == ""
    ensures text.Some? ==> |r| <= |text.value|
  {
    match text
    case None => ""
    case Some(t) =>
      var d := DecodeEntities(t);
      CollapseNormal(d);
      StripTrims(Collapse(d));
      Strip(Collapse(d))
  }

  /** The marker that `str.contains('ERROR', case=False)` looks for. */
  const ErrorMarker: string := "ERROR"

  /**
   * The output of `clean_text` is in whitespace normal form, so the final
   * `strip()` changes nothing: the text is exactly the collapsed decoding.
   */
  lemma CleanNormal(text: Option<string>)
    ensures WhitespaceNormal(Clean(text))
    ensures text.Some? ==> Clean(text) == Collapse(DecodeEntities(text.value))
  {
    if text.Some? {
      var c := Collapse(DecodeEntities(text.value));
      CollapseNormal(DecodeEntities(text.value));
      StripNormal(c);
    }
  }

  /** The consequences of the normal form spelled out. */
  lemma CleanWhitespaceFacts(text: Option<string>)
    ensures var r := Clean(text);
      (r != [] ==> !IsWhitespace(r[0]) && !IsWhitespace(r[|r| - 1])) &&
      (forall i :: 0 <= i < |r| && IsWhitespace(r[i]) ==> r[i] == ' ') &&
      (forall i :: 0 <= i < |r| - 1 ==> !(IsWhitespace(r[i]) && IsWhitespace(r[i + 1])))
  {
    CleanNormal(text);
  }

  /** Cleaning keeps the words of the decoded text: only whitespace is changed. */
  lemma CleanKeepsWords(t: string)
    ensures Split(Clean(Some(t))) == Split(DecodeEntities(t))
  {
    CleanNormal(Some(t));
    CollapseKeepsWords(DecodeEntities(t));
  }

  /** After `clean_text`, no `&lt;`, `&gt;` or `&#39;` is left. */
  lemma CleanRemovesEntities(t: string)
    ensures !Contains(Clean(Some(t)), "&lt;")
    ensures !Contains(Clean(Some(t)), "&gt;")
    ensures !Contains(Clean(Some(t)), "&#39;")
  {
    CleanNormal(Some(t));
    var t2 := ReplaceAll(ReplaceAll(t, "&quot;", "\""), "&amp;", "&");
    var t3 := ReplaceAll(t2, "&lt;", "<");
    ReplaceRemovesAll(t2, "&lt;", '<');
    RemovesLt(t3);
    RemovesGt(t3);
    RemovesApos(t3);
  }

  // The last three decoding steps, from the text after `&lt;` has been decoded.

  lemma {:induction false} RemovesLt(t3: string)
    requires !Contains(t3, "&lt;")
    ensures !Contains(Collapse(ReplaceAll(ReplaceAll(t3, "&gt;", ">"), "&#39;", "'")), "&lt;")
  {
    var t4 := ReplaceAll(t3, "&gt;", ">");
    ReplaceKeepsAbsent(t3, "&gt;", '>', "&lt;", false);
    ReplaceKeepsAbsent(t4, "&#39;", '\'', "&lt;", false);
    CollapseOccursBack(ReplaceAll(t4, "&#39;", "'"), "&lt;", false);
  }

  lemma {:induction false} RemovesGt(t3: string)
    ensures !Contains(Collapse(ReplaceAll(ReplaceAll(t3, "&gt;", ">"), "&#39;", "'")), "&gt;")
  {
    var t4 := ReplaceAll(t3, "&gt;", ">");
    ReplaceRemovesAll(t3, "&gt;", '>');
    ReplaceKeepsAbsent(t4, "&#39;", '\'', "&gt;", false);
    CollapseOccursBack(ReplaceAll(t4, "&#39;", "'"), "&gt;", false);
  }

  lemma {:induction false} RemovesApos(t3: string)
    ensures !Contains(Collapse(ReplaceAll(ReplaceAll(t3, "&gt;", ">"), "&#39;", "'")), "&#39;")
  {
    var t4 := ReplaceAll(t3, "&gt;", ">");
    ReplaceRemovesAll(t4, "&#39;", '\'');
    CollapseOccursBack(ReplaceAll(t4, "&#39;", "'"), "&#39;", false);
  }

  /** Text with no `&` has nothing to decode. */
  lemma DecodePlain(t: string)
    requires '&' !in t
    ensures DecodeEntities(t) == t
  {
    ReplaceAbsentFirst(t, "&quot;", "\"");
    ReplaceAbsentFirst(t, "&amp;", "&");
    ReplaceAbsentFirst(t, "&lt;", "<");
    ReplaceAbsentFirst(t, "&gt;", ">");
    ReplaceAbsentFirst(t, "&#39;", "'");
  }

  /** Text with no `&` that is already in whitespace normal form comes out unchanged. */
  lemma CleanFixesPlain(t: string)
    requires '&' !in t && WhitespaceNormal(t)
    ensures Clean(Some(t)) == t
  {
    DecodePlain(t);
    CollapseFixesNormal(t);
    StripNormal(t);
  }

  /** Decoding around a space, with each side's decoding already known. */
  lemma DecodeAroundKnown(x: string, y: string, dx: string, dy: string)
    requires DecodeEntities(x) == dx && DecodeEntities(y) == dy
    ensures DecodeEntities(x + " " + y) == dx + " " + dy
  {
    DecodeAround(x, y);
  }

  /**
   * No entity contains a space, so the text on either side of a space is
   * decoded on its own.
   */
  lemma DecodeAround(x: string, y: string)
    ensures DecodeEntities(x + " " + y) == DecodeEntities(x) + " " + DecodeEntities(y)
  {
    var x1, y1 := ReplaceAll(x, "&quot;", "\""), ReplaceAll(y, "&quot;", "\"");
    var x2, y2 := ReplaceAll(x1, "&amp;", "&"), ReplaceAll(y1, "&amp;", "&");
    var x3, y3 := ReplaceAll(x2, "&lt;", "<"), ReplaceAll(y2, "&lt;", "<");
    var x4, y4 := ReplaceAll(x3, "&gt;", ">"), ReplaceAll(y3, "&gt;", ">");
    ReplaceAround(x, ' ', y, "&quot;", "\"");
    ReplaceAround(x1, ' ', y1, "&amp;", "&");
    ReplaceAround(x2, ' ', y2, "&lt;", "<");
    ReplaceAround(x3, ' ', y3, "&gt;", ">");
    ReplaceAround(x4, ' ', y4, "&#39;", "'");
  }

  /** The lower-cased marker, and the characters cleaning inserts that are not among its letters. */
  lemma MarkerLetters()
    ensures LowerAll(ErrorMarker) == "error"
    ensures Canon('"', true) !in "error" && Canon('&', true) !in "error"
    ensures Canon('<', true) !in "error" && Canon('>', true) !in "error"
    ensures Canon('\'', true) !in "error" && Canon(' ', true) !in "error"
  {
    var m := LowerAll(ErrorMarker);
    assert m[0] == 'e' && m[1] == 'r' && m[2] == 'r' && m[3] == 'o' && m[4] == 'r';
  }

  /**
   * Cleaning never creates the error marker: decoding only puts in
   * `" & < > '`, and collapsing only spaces, none of which can be part of
   * "error" in any letter case.
   */
  lemma CleanKeepsMarkerAbsent(t: string)
    ensures !ContainsIgnoreCase(t, ErrorMarker) ==> !ContainsIgnoreCase(Clean(Some(t)), ErrorMarker)
  {
    var m := LowerAll(ErrorMarker);
    MarkerLetters();
    var t1 := ReplaceAll(t, "&quot;", "\"");
    var t2 := ReplaceAll(t1, "&amp;", "&");
    var t3 := ReplaceAll(t2, "&lt;", "<");
    var t4 := ReplaceAll(t3, "&gt;", ">");
    var t5 := ReplaceAll(t4, "&#39;", "'");
    CleanNormal(Some(t));
    ReplaceKeepsAbsent(t, "&quot;", '"', m, true);
    ReplaceKeepsAbsent(t1, "&amp;", '&', m, true);
    ReplaceKeepsAbsent(t2, "&lt;", '<', m, true);
    ReplaceKeepsAbsent(t3, "&gt;", '>', m, true);
    ReplaceKeepsAbsent(t4, "&#39;", '\'', m, true);
    CollapseOccursBack(t5, m, true);
  }
}
