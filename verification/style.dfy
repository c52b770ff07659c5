/** `transform_style`: the thirteen substitution passes, then the
    case-sensitive flags and the four-way fallback that may strip the trailing
    ';' characters and append one of three fixed suffixes. */
module Style {
  import opened Strings
  import opened Palette

  /** Appended to edges and to transparent shapes without a font colour. */
  const LightText := ";" + Key(FontAttr, "#cccccc") + ";"
  /** Appended to filled shapes without a font colour. */
  const WhiteText := ";" + Key(FontAttr, "#ffffff") + ";"
  /** Appended to shapes without a (case-sensitive) `fillColor=`. */
  const DarkDefaults :=
    ";" + Key(FillAttr, "#2d2d2d") + ";" + Key(StrokeAttr, "#888888") + ";" + Key(FontAttr, "#ffffff") + ";"

  const FillMarker := "fillColor="
  const FontMarker := "fontColor="

  function HasFill(t: string): bool { Contains(t, FillMarker) }
  function HasFontColor(t: string): bool { Contains(t, FontMarker) }
  function IsTransparent(t: string): bool
  {
    Contains(t, "fillColor=none") && Contains(t, "strokeColor=none")
  }

  /** The fallback applied to the substituted style. */
  function Finish(t: string, isEdge: bool): string
  {
    if isEdge then
      if !HasFontColor(t) then RStrip(t, ';') + LightText else t
    else if IsTransparent(t) then
      if !HasFontColor(t) then RStrip(t, ';') + LightText else t
    else if HasFill(t) then
      if !HasFontColor(t) then RStrip(t, ';') + WhiteText else t
    else
      RStrip(t, ';') + DarkDefaults
  }

  /** What `transform_style(style, is_edge)` returns. */
  function TransformedStyle(style: string, isEdge: bool): string
  {
    Finish(Substitute(style), isEdge)
  }

  /** `transform_style` as the script writes it: three loops rebinding the
      style, then a conditional rebinding. */
  method TransformStyle(style: string, isEdge: bool) returns (r: string)
    ensures r == TransformedStyle(style, isEdge)
  {
    r := style;
    for i := 0 to |FillMap|
      invariant Apply(r, FillRules[i..]) == Apply(style, FillRules)
    {
      var (light, dark) := FillMap[i];
      assert FillRules[i..][1..] == FillRules[i + 1..];
      r := ReplaceAll(r, FillAttr + "=" + light, FillAttr + "=" + dark, true);
    }
    var afterFill := r;
    for i := 0 to |StrokeMap|
      invariant Apply(r, StrokeRules[i..]) == Apply(afterFill, StrokeRules)
    {
      var (light, dark) := StrokeMap[i];
      assert StrokeRules[i..][1..] == StrokeRules[i + 1..];
      r := ReplaceAll(r, StrokeAttr + "=" + light, StrokeAttr + "=" + dark, true);
    }
    var afterStroke := r;
    for i := 0 to |FontMap|
      invariant Apply(r, FontRules[i..]) == Apply(afterStroke, FontRules)
    {
      var (light, dark) := FontMap[i];
      assert FontRules[i..][1..] == FontRules[i + 1..];
      r := ReplaceAll(r, FontAttr + "=" + light, FontAttr + "=" + dark, true);
    }
    ApplyConcat(style, FillRules, StrokeRules);
    ApplyConcat(style, FillRules + StrokeRules, FontRules);

    var hasFill := Contains(r, FillMarker);
    var isTransparent := Contains(r, "fillColor=none") && Contains(r, "strokeColor=none");
    var hasFontColor := Contains(r, FontMarker);
    if isEdge {
      if !hasFontColor {
        r := RStrip(r, ';') + LightText;
      }
    } else if isTransparent {
      if !hasFontColor {
        r := RStrip(r, ';') + LightText;
      }
    } else if hasFill {
      if !hasFontColor {
        r := RStrip(r, ';') + WhiteText;
      }
    } else {
      r := RStrip(r, ';') + DarkDefaults;
    }
  }

  // ---------------------------------------------------------------------------
  // The suffixes
  // ---------------------------------------------------------------------------

  /** The key's attribute name and '=' stand right after `pre`. */
  lemma MarkerAfter(pre: string, attr: string, colour: string, post: string)
    ensures MatchAt(pre + Key(attr, colour) + post, attr + "=", |pre|, false)
  {
    var s := pre + Key(attr, colour) + post;
    forall i | 0 <= i < |attr| + 1 ensures Same(s[|pre| + i], (attr + "=")[i], false) {
      assert s[|pre| + i] == Key(attr, colour)[i];
    }
  }

  lemma LightTextMarker()
    ensures MatchAt(LightText, FontMarker, 1, false)
  {
    MarkerAfter(";", FontAttr, "#cccccc", ";");
  }

  lemma WhiteTextMarker()
    ensures MatchAt(WhiteText, FontMarker, 1, false)
  {
    MarkerAfter(";", FontAttr, "#ffffff", ";");
  }

  lemma DarkDefaultsFill()
    ensures MatchAt(DarkDefaults, FillMarker, 1, false)
  {
    var rest := ";" + Key(StrokeAttr, "#888888") + ";" + Key(FontAttr, "#ffffff") + ";";
    assert DarkDefaults == ";" + Key(FillAttr, "#2d2d2d") + rest;
    MarkerAfter(";", FillAttr, "#2d2d2d", rest);
  }

  lemma DarkDefaultsFont()
    ensures MatchAt(DarkDefaults, FontMarker, 39, false)
  {
    var pre := ";" + Key(FillAttr, "#2d2d2d") + ";" + Key(StrokeAttr, "#888888") + ";";
    MarkerAfter(pre, FontAttr, "#ffffff", ";");
  }

  lemma SuffixMarkers()
    ensures MatchAt(LightText, FontMarker, 1, false)
    ensures MatchAt(WhiteText, FontMarker, 1, false)
    ensures MatchAt(DarkDefaults, FillMarker, 1, false)
    ensures MatchAt(DarkDefaults, FontMarker, 39, false)
  {
    LightTextMarker();
    WhiteTextMarker();
    DarkDefaultsFill();
    DarkDefaultsFont();
  }

  /** A marker that ends in a character other than ';' survives the stripping. */
  lemma KeptByStrip(t: string, p: string)
    requires p != [] && p[|p| - 1] != ';' && Contains(t, p)
    ensures exists k :: MatchAt(RStrip(t, ';'), p, k, false) && k + |p| <= |RStrip(t, ';')|
  {
    RStripKeeps(t, ';', p);
  }

  /** A text holding `fillColor=none` holds `fillColor=`. */
  lemma NoneHasFill(t: string)
    ensures Contains(t, "fillColor=none") ==> HasFill(t)
  {
    if Contains(t, "fillColor=none") {
      var k :| MatchAt(t, "fillColor=none", k, false);
      MatchTake(t, "fillColor=none", 10, k, false);
      assert "fillColor=none"[..10] == FillMarker;
    }
  }

  // ---------------------------------------------------------------------------
  // The fallback
  // ---------------------------------------------------------------------------

  /** Nothing else changes: the style comes back as it was, or with its
      trailing ';' stripped and exactly one of the three suffixes appended. */
  lemma FinishShape(t: string, isEdge: bool)
    ensures var r := Finish(t, isEdge);
      || r == t
      || r == RStrip(t, ';') + LightText
      || r == RStrip(t, ';') + WhiteText
      || r == RStrip(t, ';') + DarkDefaults
  {
  }

  /** Every style that leaves the fallback names a font colour. */
  lemma FinishHasFontColor(t: string, isEdge: bool)
    ensures HasFontColor(Finish(t, isEdge))
  {
    SuffixMarkers();
    var u := RStrip(t, ';');
    MatchAfter(u, LightText, FontMarker, 1);
    MatchAfter(u, WhiteText, FontMarker, 1);
    MatchAfter(u, DarkDefaults, FontMarker, 39);
  }

  /** Every non-edge style that leaves the fallback names a fill colour. */
  lemma FinishHasFill(t: string)
    ensures HasFill(Finish(t, false))
  {
    var u := RStrip(t, ';');
    NoneHasFill(t);
    if HasFill(t) {
      RStripKeeps(t, ';', FillMarker);
      ContainsExtend(u, LightText, FillMarker);
      ContainsExtend(u, WhiteText, FillMarker);
    }
    SuffixMarkers();
    MatchAfter(u, DarkDefaults, FillMarker, 1);
  }

  /** An edge comes back unchanged exactly when it already names a font
      colour, whatever its fill and stroke say. */
  lemma EdgeUnchangedIff(t: string)
    ensures Finish(t, true) == t <==> HasFontColor(t)
  {
    FinishHasFontColor(t, true);
  }

  /** A shape comes back unchanged exactly when it already names both a font
      colour and a fill colour. */
  lemma ShapeUnchangedIff(t: string)
    ensures Finish(t, false) == t <==> HasFontColor(t) && HasFill(t)
  {
    FinishHasFontColor(t, false);
    FinishHasFill(t);
  }

  /** A shape without `fillColor=` gets the default suffix even when it names a
      font colour, which then appears twice. */
  lemma DefaultRepeatsFontColor(t: string)
    requires !HasFill(t) && HasFontColor(t)
    ensures Finish(t, false) == RStrip(t, ';') + DarkDefaults
    ensures exists k1, k2 :: 0 <= k1 < k2 && MatchAt(Finish(t, false), FontMarker, k1, false) &&
                                             MatchAt(Finish(t, false), FontMarker, k2, false)
  {
    NoneHasFill(t);
    var u := RStrip(t, ';');
    KeptByStrip(t, FontMarker);
    var k1 :| MatchAt(u, FontMarker, k1, false) && k1 + |FontMarker| <= |u|;
    assert (u + DarkDefaults)[..|u|] == u[..|u|];
    MatchPrefix(u, u + DarkDefaults, |u|, FontMarker, k1, false);
    SuffixMarkers();
    MatchAfter(u, DarkDefaults, FontMarker, 39);
  }

  lemma FinishIdempotent(t: string, isEdge: bool)
    ensures Finish(Finish(t, isEdge), isEdge) == Finish(t, isEdge)
  {
    FinishHasFontColor(t, isEdge);
    FinishHasFill(t);
  }

  // ---------------------------------------------------------------------------
  // Idempotence
  // ---------------------------------------------------------------------------

  lemma FillLightsAvoid()
    ensures forall e :: e in FillMap ==> e.0 != "#2d2d2d"
  {
  }

  lemma StrokeLightsAvoid()
    ensures forall e :: e in StrokeMap ==> e.0 != "#888888"
  {
  }

  lemma FontLightsAvoid()
    ensures forall e :: e in FontMap ==> e.0 != "#cccccc" && e.0 != "#ffffff"
  {
  }

  /** The colours the suffixes write are not light values of their attribute. */
  lemma SuffixColoursNotLight(q: Rule)
    requires q in AllRules
    ensures RuleOK(q)
    ensures q.attr == FontAttr ==> q.light != "#cccccc" && q.light != "#ffffff"
    ensures q.attr == FillAttr ==> q.light != "#2d2d2d"
    ensures q.attr == StrokeAttr ==> q.light != "#888888"
  {
    AllConsistent();
    if q in FillRules {
      var i :| 0 <= i < |FillRules| && FillRules[i] == q;
      assert FillMap[i] in FillMap;
      FillLightsAvoid();
    } else if q in StrokeRules {
      var i :| 0 <= i < |StrokeRules| && StrokeRules[i] == q;
      assert StrokeMap[i] in StrokeMap;
      StrokeLightsAvoid();
    } else {
      assert q in FontRules;
      var i :| 0 <= i < |FontRules| && FontRules[i] == q;
      assert FontMap[i] in FontMap;
      FontLightsAvoid();
    }
  }

  /** `;`, then a key that is no light key, then `;` holds no light key. */
  lemma FramedKeyFree(x: string, attr: string, colour: string, q: Rule)
    requires RuleOK(q) && IsAttr(attr) && IsColour(colour) && (q.attr == attr ==> q.light != colour)
    requires x != [] && x[|x| - 1] == ';' && !Occurs(x, q.Pattern(), true)
    ensures !Occurs(x + Key(attr, colour) + ";", q.Pattern(), true)
  {
    var p := q.Pattern();
    KeyShaped(q.attr, q.light);
    ShapedNoSemicolon(p, |q.attr|);
    KeyHoldsNoOtherKey(attr, colour, q.attr, q.light);
    assert x == x[..|x| - 1] + [';'];
    AppendAfter(x[..|x| - 1], ';', Key(attr, colour), p, true);
    AppendAbsent(x + Key(attr, colour), ';', p, true);
  }

  lemma SemicolonFree(q: Rule)
    requires RuleOK(q)
    ensures !Occurs(";", q.Pattern(), true)
  {
    forall k ensures !MatchAt(";", q.Pattern(), k, true) {
    }
  }

  lemma LightTextFree(q: Rule)
    requires q in AllRules
    ensures !Occurs(LightText, q.Pattern(), true)
  {
    SuffixColoursNotLight(q);
    SemicolonFree(q);
    FramedKeyFree(";", FontAttr, "#cccccc", q);
  }

  lemma WhiteTextFree(q: Rule)
    requires q in AllRules
    ensures !Occurs(WhiteText, q.Pattern(), true)
  {
    SuffixColoursNotLight(q);
    SemicolonFree(q);
    FramedKeyFree(";", FontAttr, "#ffffff", q);
  }

  lemma DarkDefaultsFree(q: Rule)
    requires q in AllRules
    ensures !Occurs(DarkDefaults, q.Pattern(), true)
  {
    SuffixColoursNotLight(q);
    SemicolonFree(q);
    var x1 := ";" + Key(FillAttr, "#2d2d2d") + ";";
    FramedKeyFree(";", FillAttr, "#2d2d2d", q);
    var x2 := x1 + Key(StrokeAttr, "#888888") + ";";
    FramedKeyFree(x1, StrokeAttr, "#888888", q);
    FramedKeyFree(x2, FontAttr, "#ffffff", q);
  }

  /** The fallback writes no light key. */
  lemma FinishKeepsAbsent(t: string, isEdge: bool, q: Rule)
    requires q in AllRules && !Occurs(t, q.Pattern(), true)
    ensures !Occurs(Finish(t, isEdge), q.Pattern(), true)
  {
    var p, u := q.Pattern(), RStrip(t, ';');
    SuffixColoursNotLight(q);
    KeyShaped(q.attr, q.light);
    ShapedNoSemicolon(p, |q.attr|);
    PrefixAbsent(t, |u|, p, true);
    LightTextFree(q);
    WhiteTextFree(q);
    DarkDefaultsFree(q);
    ConcatAbsent(u, LightText, p, true);
    ConcatAbsent(u, WhiteText, p, true);
    ConcatAbsent(u, DarkDefaults, p, true);
  }

  /** Running `transform_style` a second time with the same `is_edge` changes nothing. */
  lemma TransformIdempotent(style: string, isEdge: bool)
    ensures TransformedStyle(TransformedStyle(style, isEdge), isEdge) == TransformedStyle(style, isEdge)
  {
    var t := Substitute(style);
    var r := Finish(t, isEdge);
    NoLightKeyRemains(style);
    forall q | q in AllRules ensures !Occurs(r, q.Pattern(), true) {
      FinishKeepsAbsent(t, isEdge, q);
    }
    SubstituteIdentity(r);
    FinishIdempotent(t, isEdge);
  }

  // ---------------------------------------------------------------------------
  // Substitution ignores case, the flags do not
  // ---------------------------------------------------------------------------

  lemma CapitalFirstPass()
    ensures Pass("FILLCOLOR=#DAE8FC", AllRules[0]) == Key(FillAttr, "#1e4d8c")
  {
    var s := "FILLCOLOR=#DAE8FC";
    var r0 := AllRules[0];
    assert r0 == Rule(FillAttr, "#dae8fc", "#1e4d8c");
    assert MatchAt(s, r0.Pattern(), 0, true);
    FindFromFirst(s, r0.Pattern(), 0, true, 0);
    assert Pass(s, r0) == r0.Replacement() + ReplaceAll([], r0.Pattern(), r0.Replacement(), true);
  }

  lemma CapitalSubstituted()
    ensures Substitute("FILLCOLOR=#DAE8FC") == Key(FillAttr, "#1e4d8c")
  {
    var t := Key(FillAttr, "#1e4d8c");
    CapitalFirstPass();
    AllConsistent();
    assert AllRules[0] in AllRules;
    forall q | q in AllRules[1..] ensures !Occurs(t, q.Pattern(), true) {
      KeyHoldsNoOtherKey(FillAttr, "#1e4d8c", q.attr, q.light);
    }
    ApplyIdentity(t, AllRules[1..]);
  }

  lemma DarkBlueHasFill()
    ensures HasFill(Key(FillAttr, "#1e4d8c"))
  {
    MarkerAfter([], FillAttr, "#1e4d8c", []);
    assert [] + Key(FillAttr, "#1e4d8c") + [] == Key(FillAttr, "#1e4d8c");
  }

  lemma DarkBlueNotTransparent()
    ensures !Contains(Key(FillAttr, "#1e4d8c"), "fillColor=none")
  {
    var t := "fillColor=#1e4d8c";
    assert Key(FillAttr, "#1e4d8c") == t;
    forall k ensures !MatchAt(t, "fillColor=none", k, false) {
      if k == 0 {
        assert !Same(t[10], "fillColor=none"[10], false);
      } else if 1 <= k <= 3 {
        assert !Same(t[k], "fillColor=none"[0], false);
      }
    }
  }

  lemma DarkBlueNoFontColor()
    ensures !HasFontColor(Key(FillAttr, "#1e4d8c"))
  {
    var t := "fillColor=#1e4d8c";
    assert Key(FillAttr, "#1e4d8c") == t;
    forall k ensures !MatchAt(t, FontMarker, k, false) {
      if k == 0 {
        assert !Same(t[1], FontMarker[1], false);
      } else if 1 <= k <= 7 {
        assert !Same(t[k], FontMarker[0], false);
      }
    }
  }

  lemma DarkBlueFlags()
    ensures HasFill(Key(FillAttr, "#1e4d8c"))
    ensures !Contains(Key(FillAttr, "#1e4d8c"), "fillColor=none")
    ensures !HasFontColor(Key(FillAttr, "#1e4d8c"))
  {
    DarkBlueHasFill();
    DarkBlueNotTransparent();
    DarkBlueNoFontColor();
  }

  /** A light key in capitals is still rewritten, to the canonical spelling;
      the rewritten style then counts as filled. */
  lemma CapitalLightKeyRewritten()
    ensures TransformedStyle("FILLCOLOR=#DAE8FC", false) == Key(FillAttr, "#1e4d8c") + WhiteText
  {
    CapitalSubstituted();
    DarkBlueFlags();
  }

  /** A style shorter than every light key holds none of them. */
  lemma ShortHoldsNoKey(s: string)
    requires |s| < 17
    ensures forall q :: q in AllRules ==> !Occurs(s, q.Pattern(), true)
  {
    forall q | q in AllRules ensures !Occurs(s, q.Pattern(), true) {
      SuffixColoursNotLight(q);
      forall k ensures !MatchAt(s, q.Pattern(), k, true) {
      }
    }
  }

  lemma CapitalFillFlags()
    ensures !HasFill("FILLCOLOR=none") && !IsTransparent("FILLCOLOR=none")
  {
    var s := "FILLCOLOR=none";
    forall k ensures !MatchAt(s, FillMarker, k, false) {
      if k == 0 {
        assert !Same(s[1], FillMarker[1], false);
      } else if 1 <= k <= 4 {
        assert !Same(s[k], FillMarker[0], false);
      }
    }
    NoneHasFill(s);
  }

  /** `FILLCOLOR=` in capitals does not count as a fill for the flags: the
      style gets the default suffix and a second fill colour. */
  lemma CapitalFillNotSeen()
    ensures TransformedStyle("FILLCOLOR=none", false) == "FILLCOLOR=none" + DarkDefaults
  {
    ShortHoldsNoKey("FILLCOLOR=none");
    SubstituteIdentity("FILLCOLOR=none");
    CapitalFillFlags();
  }

  lemma SuffixesQuoteFree()
    ensures '"' !in LightText && '"' !in WhiteText && '"' !in DarkDefaults
  {
    AttrFacts(FillAttr);
    AttrFacts(StrokeAttr);
    AttrFacts(FontAttr);
    KeyShaped(FontAttr, "#cccccc");
    ShapedNoQuote(Key(FontAttr, "#cccccc"), |FontAttr|);
    KeyShaped(FontAttr, "#ffffff");
    ShapedNoQuote(Key(FontAttr, "#ffffff"), |FontAttr|);
    KeyShaped(FillAttr, "#2d2d2d");
    ShapedNoQuote(Key(FillAttr, "#2d2d2d"), |FillAttr|);
    KeyShaped(StrokeAttr, "#888888");
    ShapedNoQuote(Key(StrokeAttr, "#888888"), |StrokeAttr|);
  }

  /** A style without a double quote comes out without one: the rewritten
      value cannot end its `style="..."` attribute early. */
  lemma TransformQuoteFree(style: string, isEdge: bool)
    ensures '"' !in style ==> '"' !in TransformedStyle(style, isEdge)
  {
    var t := Substitute(style);
    SubstituteQuoteFree(style);
    FinishShape(t, isEdge);
    SuffixesQuoteFree();
    var u := RStrip(t, ';');
    assert u == t[..|u|];
  }
}
