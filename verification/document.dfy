/** The text rewriting of `transform_file`: the dark canvas background on
    every `<mxGraphModel>` tag, then every `style="..."` attribute value
    passed through `transform_style`, with the edge context read from the
    text as it was before any style was rewritten. */
module Document {
  import opened Strings
  import opened Style

  // ---------------------------------------------------------------------------
  // The canvas background (make-dark.py:85-89)
  // ---------------------------------------------------------------------------

  const GraphOpen := "<mxGraphModel>"
  const GraphOpenDark := "<mxGraphModel background=\"#1e1e1e\">"

  function AddBackground(content: string): string
  {
    ReplaceAll(content, GraphOpen, GraphOpenDark, false)
  }

  lemma GraphOpenSelfOverlapFree()
    ensures SelfOverlapFree(GraphOpen, false)
  {
    forall d | 0 < d < |GraphOpen| ensures !Agree(GraphOpen, GraphOpen, d, false) {
      assert !Same(GraphOpen[d], GraphOpen[0], false);
    }
  }

  /** Every `<mxGraphModel>`, not only the first, gets the background, and all
      other text is kept: cut at the bare tags, the content is glued back with
      the tag that carries the background.  A tag that already has attributes
      is not a bare tag, so it stays inside a part, untouched. */
  lemma BackgroundEveryTag(content: string)
    ensures var parts := Split(content, GraphOpen);
      && Join(parts, GraphOpen) == content
      && (forall i :: 0 <= i < |parts| ==> !Occurs(parts[i], GraphOpen, false))
      && AddBackground(content) == Join(parts, GraphOpenDark)
  {
    SplitJoin(content, GraphOpen);
    GraphOpenSelfOverlapFree();
    ReplaceJoin(Split(content, GraphOpen), GraphOpen, GraphOpenDark, false);
  }

  /** Content without a bare `<mxGraphModel>` tag keeps its canvas as it is. */
  lemma BackgroundOnlyOnBareTag(content: string)
    requires !Contains(content, GraphOpen)
    ensures AddBackground(content) == content
  {
    ReplaceAbsent(content, GraphOpen, GraphOpenDark, false);
  }

  // ---------------------------------------------------------------------------
  // The edge context of one match (make-dark.py:92-97)
  // ---------------------------------------------------------------------------

  const CellOpen := "<mxCell"
  const EdgeMark := "edge=\"1\""

  /** `replace_style`'s test for a match from `start` to `end`: `edge="1"` in
      the text from the last `<mxCell` before `start` (Python index -1 when
      there is none) up to `end`. */
  function IsEdge(content: string, start: int, end: int): bool
    requires 0 <= start <= end <= |content|
  {
    var last := RFind(content[..start], CellOpen);
    Contains(Slice(content, last, end), EdgeMark)
  }

  /** `k` is where the last `<mxCell` before `start` begins. */
  ghost predicate LastCell(content: string, start: int, k: int)
    requires 0 <= start <= |content|
  {
    MatchAt(content[..start], CellOpen, k, false) &&
    forall j :: MatchAt(content[..start], CellOpen, j, false) ==> j <= k
  }

  /** A match counts as an edge exactly when `edge="1"` lies between the last
      `<mxCell` before it and the end of the match. */
  lemma EdgeWindow(content: string, start: int, end: int)
    requires 0 <= start <= end <= |content|
    ensures IsEdge(content, start, end) <==>
      exists k :: LastCell(content, start, k) && Contains(content[k..end], EdgeMark)
  {
    var last := RFind(content[..start], CellOpen);
    if last >= 0 {
      assert LastCell(content, start, last);
    }
  }

  /** With no `<mxCell` before it, a match is never an edge: the window is at
      most one character long. */
  lemma NoCellNeverEdge(content: string, start: int, end: int)
    requires 0 <= start <= end <= |content|
    requires !Contains(content[..start], CellOpen)
    ensures !IsEdge(content, start, end)
  {
  }

  /** The text after the end of the match never counts, so `edge="1"` written
      after the style attribute of the same tag is missed. */
  lemma EdgeIgnoresLaterText(c: string, d: string, start: int, end: int)
    requires 0 <= start <= end <= |c| && end <= |d| && c[..end] == d[..end]
    ensures IsEdge(c, start, end) == IsEdge(d, start, end)
  {
    assert c[..start] == c[..end][..start] == d[..end][..start] == d[..start];
    var last := RFind(c[..start], CellOpen);
    if last >= 0 {
      assert c[last..end] == c[..end][last..] == d[..end][last..] == d[last..end];
    }
  }

  lemma EdgeMarkBeforeEnd(content: string, start: int, end: int)
    requires 0 <= start <= end <= |content|
    ensures IsEdge(content, start, end) ==> Contains(content[..end], EdgeMark)
  {
    var last := RFind(content[..start], CellOpen);
    var w := Slice(content, last, end);
    if last >= 0 && Contains(w, EdgeMark) {
      var k :| MatchAt(w, EdgeMark, k, false);
      assert w == content[..end][last..];
      MatchAfter(content[..end][..last], w, EdgeMark, k);
      assert content[..end][..last] + w == content[..end];
    }
  }

  // ---------------------------------------------------------------------------
  // The scan for `style="([^"]*)"` (make-dark.py:101)
  // ---------------------------------------------------------------------------

  const StyleOpen := "style=\""
  const Quote := "\""

  /** The pattern matches from `k` to `q` inclusive: `style="` at `k`, then a
      run of non-quote characters (newlines included), then the quote at `q`. */
  predicate AttrAt(c: string, k: int, q: int)
  {
    MatchAt(c, StyleOpen, k, false) && k + |StyleOpen| <= q < |c| && c[q] == '"' &&
    forall x :: k + |StyleOpen| <= x < q ==> c[x] != '"'
  }

  /** The leftmost match starting at or after `from`, as (start, closing quote).
      When the first `style="` has no quote after it, no later one has either. */
  function NextStyle(c: string, from: nat): (r: Option<(nat, nat)>)
    ensures r.Some? ==> from <= r.value.0 && r.value.0 + |StyleOpen| <= r.value.1 < |c|
  {
    match FindFrom(c, StyleOpen, from, false)
    case None => None
    case Some(i) =>
      match FindFrom(c, Quote, i + |StyleOpen|, false)
      case None => None
      case Some(q) => Some((i, q))
  }

  /** `NextStyle` finds a match exactly when there is one, and the leftmost. */
  lemma NextStyleLeftmost(c: string, from: nat)
    ensures var r := NextStyle(c, from);
      && (r.Some? ==>
            AttrAt(c, r.value.0, r.value.1) &&
            forall k, q :: from <= k < r.value.0 ==> !AttrAt(c, k, q))
      && (r.None? ==> forall k, q :: from <= k ==> !AttrAt(c, k, q))
  {
    forall k, q | from <= k && AttrAt(c, k, q)
      ensures FindFrom(c, StyleOpen, from, false).Some?
      ensures FindFrom(c, StyleOpen, from, false).value <= k
    {
      FindFromFirst(c, StyleOpen, from, false, k);
    }
    match FindFrom(c, StyleOpen, from, false)
    case None =>
    case Some(i) =>
      forall k, q | i <= k && AttrAt(c, k, q)
        ensures FindFrom(c, Quote, i + |StyleOpen|, false).Some?
        ensures FindFrom(c, Quote, i + |StyleOpen|, false).value <= q
      {
        assert MatchAt(c, Quote, q, false);
        FindFromFirst(c, Quote, i + |StyleOpen|, false, q);
      }
      match FindFrom(c, Quote, i + |StyleOpen|, false)
      case None =>
      case Some(q) =>
        forall x | i + |StyleOpen| <= x < q ensures c[x] != '"' {
          if c[x] == '"' {
            assert MatchAt(c, Quote, x, false);
            FindFromFirst(c, Quote, i + |StyleOpen|, false, x);
          }
        }
        assert c[q] == Quote[0];
  }

  /** The text cut at the matches, left to right: the text before a match,
      the match's group with the edge context `replace_style` computes for it,
      and what follows; the text after the last match ends the chain. */
  datatype Scanned =
    | Tail(text: string)
    | Match(before: string, value: string, isEdge: bool, rest: Scanned)

  function Render(s: Scanned): string
  {
    match s
    case Tail(t) => t
    case Match(b, v, _, rest) => b + StyleOpen + v + Quote + Render(rest)
  }

  /** `re.sub`'s left-to-right, non-overlapping scan from `from`, asking
      `edge` about each match (from its start to just past its closing quote)
      as the callback `replace_style` does. */
  function ScanFrom(c: string, from: nat, edge: (nat, nat) -> bool): Scanned
    requires from <= |c|
    decreases |c| - from
  {
    var next := NextStyle(c, from);
    if next.None? then Tail(c[from..])
    else
      var (i, q) := next.value;
      Match(c[from..i], c[i + |StyleOpen|..q], edge(i, q + 1), ScanFrom(c, q + 1, edge))
  }

  /** `replace_style`'s edge test on the text `c` the scan runs over. */
  function EdgeTest(c: string): (nat, nat) -> bool
  {
    (start: nat, end: nat) => start <= end <= |c| && IsEdge(c, start, end)
  }

  function Scan(c: string): Scanned
  {
    ScanFrom(c, 0, EdgeTest(c))
  }

  /** `replace_style` applied to every match: only the groups change. */
  function Restyle(s: Scanned): Scanned
  {
    match s
    case Tail(t) => Tail(t)
    case Match(b, v, e, rest) => Match(b, TransformedStyle(v, e), e, Restyle(rest))
  }

  /** What `transform_file` writes for `content`. */
  function TransformedText(content: string): string
  {
    Render(Restyle(Scan(AddBackground(content))))
  }

  /** One step of the scan, when there is a match. */
  lemma ScanStep(c: string, from: nat, i: nat, q: nat, edge: (nat, nat) -> bool)
    requires from <= |c| && NextStyle(c, from) == Some((i, q))
    ensures ScanFrom(c, from, edge) ==
      Match(c[from..i], c[i + |StyleOpen|..q], edge(i, q + 1), ScanFrom(c, q + 1, edge))
  {
  }

  /** A match spells out `style="`, its group and the closing quote. */
  lemma MatchText(c: string, from: nat, i: nat, q: nat)
    requires NextStyle(c, from) == Some((i, q))
    ensures StyleOpen + c[i + |StyleOpen|..q] + Quote == c[i..q + 1]
  {
    NextStyleLeftmost(c, from);
    assert c[i..i + |StyleOpen|] == StyleOpen;
    assert c[q..q + 1] == Quote;
    assert c[i..q + 1] == c[i..i + |StyleOpen|] + c[i + |StyleOpen|..q] + c[q..q + 1];
  }

  lemma Cut3(s: string, a: int, b: int, d: int)
    requires 0 <= a <= b <= d <= |s|
    ensures s[a..] == s[a..b] + s[b..d] + s[d..]
  {
  }

  lemma RenderMatch(c: string, from: nat, i: nat, q: nat, e: bool, rest: Scanned)
    requires from <= i && i + |StyleOpen| <= q < |c|
    requires StyleOpen + c[i + |StyleOpen|..q] + Quote == c[i..q + 1]
    requires Render(rest) == c[q + 1..]
    ensures Render(Match(c[from..i], c[i + |StyleOpen|..q], e, rest)) == c[from..]
  {
    var v := c[i + |StyleOpen|..q];
    calc {
      Render(Match(c[from..i], v, e, rest));
      c[from..i] + StyleOpen + v + Quote + c[q + 1..];
      { assert c[from..i] + StyleOpen + v + Quote == c[from..i] + (StyleOpen + v + Quote); }
      c[from..i] + c[i..q + 1] + c[q + 1..];
      { Cut3(c, from, i, q + 1); }
      c[from..];
    }
  }

  lemma ScanRenderStep(c: string, from: nat, i: nat, q: nat, edge: (nat, nat) -> bool)
    requires from <= |c| && NextStyle(c, from) == Some((i, q))
    requires Render(ScanFrom(c, q + 1, edge)) == c[q + 1..]
    ensures Render(ScanFrom(c, from, edge)) == c[from..]
  {
    ScanStep(c, from, i, q, edge);
    MatchText(c, from, i, q);
    RenderMatch(c, from, i, q, edge(i, q + 1), ScanFrom(c, q + 1, edge));
  }

  /** Cutting loses nothing: the pieces spell out the scanned text. */
  lemma {:induction false} ScanRender(c: string, from: nat, edge: (nat, nat) -> bool)
    requires from <= |c|
    ensures Render(ScanFrom(c, from, edge)) == c[from..]
    decreases |c| - from
  {
    var next := NextStyle(c, from);
    if next.Some? {
      var (i, q) := next.value;
      ScanRender(c, q + 1, edge);
      ScanRenderStep(c, from, i, q, edge);
    }
  }

  /** `s`, laid out from index `at` of `c`, is what `re.sub` sees there: the
      text before each match holds no start of a match, each match is the
      leftmost one (with the edge context `edge` gives for it), and the next
      search starts where the match ends.  Which characters the pieces hold
      is `ScanRender`. */
  ghost predicate ScannedFrom(c: string, at: nat, s: Scanned, edge: (nat, nat) -> bool)
    decreases s
  {
    match s
    case Tail(t) => forall k, q :: at <= k < at + |t| ==> !AttrAt(c, k, q)
    case Match(b, v, e, rest) =>
      var i := at + |b|;
      var q := i + |StyleOpen| + |v|;
      && (forall k, q' :: at <= k < i ==> !AttrAt(c, k, q'))
      && AttrAt(c, i, q)
      && e == edge(i, q + 1)
      && ScannedFrom(c, q + 1, rest, edge)
  }

  lemma MatchScanned(c: string, at: nat, b: string, v: string, e: bool, rest: Scanned,
                     edge: (nat, nat) -> bool)
    requires var i := at + |b|; var q := i + |StyleOpen| + |v|;
      && (forall k, q' :: at <= k < i ==> !AttrAt(c, k, q'))
      && AttrAt(c, i, q)
      && e == edge(i, q + 1)
      && ScannedFrom(c, q + 1, rest, edge)
    ensures ScannedFrom(c, at, Match(b, v, e, rest), edge)
  {
  }

  /** What `ScannedFrom` says of the first match and the rest. */
  lemma ScannedMatch(c: string, at: nat, b: string, v: string, e: bool, rest: Scanned,
                     edge: (nat, nat) -> bool)
    requires ScannedFrom(c, at, Match(b, v, e, rest), edge)
    ensures var q := at + |b| + |StyleOpen| + |v|;
      q < |c| && e == edge(at + |b|, q + 1) && ScannedFrom(c, q + 1, rest, edge)
  {
  }

  /** Where the matches of `s` sit once it is laid out from index `at`: the
      start of each `style="`, the index of its closing quote, and its flag. */
  function Spans(at: nat, s: Scanned): seq<(nat, nat, bool)>
    decreases s
  {
    match s
    case Tail(_) => []
    case Match(b, v, e, rest) =>
      var i := at + |b|;
      var q := i + |StyleOpen| + |v|;
      [(i, q, e)] + Spans(q + 1, rest)
  }

  /** Every match of `s`, laid out from index `at` of `c`, lies inside `c`
      and carries the flag `edge` gives for it. */
  ghost predicate SpansRead(c: string, at: nat, s: Scanned, edge: (nat, nat) -> bool)
  {
    forall t :: t in Spans(at, s) ==> t.0 <= t.1 < |c| && t.2 == edge(t.0, t.1 + 1)
  }

  /** `SpansRead` holds of a match whose flag the test gives and of the rest. */
  lemma SpansReadMatch(c: string, at: nat, b: string, v: string, e: bool, rest: Scanned,
                       edge: (nat, nat) -> bool)
    requires var i := at + |b|; var q := i + |StyleOpen| + |v|;
      q < |c| && e == edge(i, q + 1) && SpansRead(c, q + 1, rest, edge)
    ensures SpansRead(c, at, Match(b, v, e, rest), edge)
  {
    var i := at + |b|;
    var q := i + |StyleOpen| + |v|;
    var s := Match(b, v, e, rest);
    assert Spans(at, s) == [(i, q, e)] + Spans(q + 1, rest);
    forall t | t in Spans(at, s) ensures t.0 <= t.1 < |c| && t.2 == edge(t.0, t.1 + 1) {
      if t != (i, q, e) {
        assert t in Spans(q + 1, rest);
      }
    }
  }

  /** The flags a scan carries are those its edge test gives at the places
      of its matches. */
  lemma {:induction false} ScannedSpans(c: string, at: nat, s: Scanned, edge: (nat, nat) -> bool)
    requires ScannedFrom(c, at, s, edge)
    ensures SpansRead(c, at, s, edge)
    decreases s
  {
    if s.Match? {
      var b, v, e, rest := s.before, s.value, s.isEdge, s.rest;
      ScannedMatch(c, at, b, v, e, rest, edge);
      ScannedSpans(c, at + |b| + |StyleOpen| + |v| + 1, rest, edge);
      SpansReadMatch(c, at, b, v, e, rest, edge);
    }
  }

  lemma EdgeRead(c: string, i: nat, q: nat, e: bool)
    requires i <= q < |c| && e == EdgeTest(c)(i, q + 1)
    ensures e == IsEdge(c, i, q + 1)
  {
  }

  /** Every match of a scan lies inside the text and carries the flag the
      scan's edge test gives for it. */
  lemma ScanSpans(c: string, from: nat, edge: (nat, nat) -> bool)
    requires from <= |c|
    ensures SpansRead(c, from, ScanFrom(c, from, edge), edge)
  {
    var s := ScanFrom(c, from, edge);
    ScanFaithful(c, from, edge);
    ScannedSpans(c, from, s, edge);
  }

  /** Every match the scan of `c` takes, from `style="` at `t.0` to its closing
      quote at `t.1`, carries the flag `replace_style` computes on `c` itself:
      `edge="1"` between the last `<mxCell` before the match and its end. */
  lemma ScannedEdges(c: string, t: (nat, nat, bool))
    requires t in Spans(0, Scan(c))
    ensures t.0 <= t.1 < |c| && t.2 == IsEdge(c, t.0, t.1 + 1)
  {
    ScanSpans(c, 0, EdgeTest(c));
    EdgeRead(c, t.0, t.1, t.2);
  }

  /** The text before a match and the match itself. */
  lemma ScanHeadFaithful(c: string, from: nat, i: nat, q: nat, rest: Scanned,
                          edge: (nat, nat) -> bool)
    requires from <= |c| && NextStyle(c, from) == Some((i, q))
    requires ScannedFrom(c, q + 1, rest, edge)
    ensures ScannedFrom(c, from,
      Match(c[from..i], c[i + |StyleOpen|..q], edge(i, q + 1), rest), edge)
  {
    NextStyleLeftmost(c, from);
    var b, v := c[from..i], c[i + |StyleOpen|..q];
    assert from + |b| == i && i + |StyleOpen| + |v| == q;
    MatchScanned(c, from, b, v, edge(i, q + 1), rest, edge);
  }

  /** The text after the last match holds no match. */
  lemma ScanLastFaithful(c: string, from: nat, edge: (nat, nat) -> bool)
    requires from <= |c| && NextStyle(c, from) == None
    ensures ScannedFrom(c, from, ScanFrom(c, from, edge), edge)
  {
    NextStyleLeftmost(c, from);
  }

  /** Each step of the scan takes the leftmost match of `style="([^"]*)"`,
      with its group and its edge context, and text that holds no match. */
  lemma {:induction false} ScanFaithful(c: string, from: nat, edge: (nat, nat) -> bool)
    requires from <= |c|
    ensures ScannedFrom(c, from, ScanFrom(c, from, edge), edge)
    decreases |c| - from
  {
    var next := NextStyle(c, from);
    if next.None? {
      ScanLastFaithful(c, from, edge);
    } else {
      var (i, q) := next.value;
      ScanStep(c, from, i, q, edge);
      ScanFaithful(c, q + 1, edge);
      ScanHeadFaithful(c, from, i, q, ScanFrom(c, q + 1, edge), edge);
    }
  }

  // ---------------------------------------------------------------------------
  // The rewrite of every style (make-dark.py:92-101)
  // ---------------------------------------------------------------------------

  /** The text around the groups: the text before each match and after the
      last one, with `style="` and the closing quote left implicit. */
  function Frame(s: Scanned): seq<string>
  {
    match s
    case Tail(t) => [t]
    case Match(b, _, _, rest) => [b] + Frame(rest)
  }

  /** The edge flags of the matches, in order. */
  function Flags(s: Scanned): seq<bool>
  {
    match s
    case Tail(_) => []
    case Match(_, _, e, rest) => [e] + Flags(rest)
  }

  /** Only the groups change: the text around them, the number of matches
      and their edge flags stay as they were. */
  lemma {:induction false} RestyleKeepsFrame(s: Scanned)
    ensures Frame(Restyle(s)) == Frame(s)
    ensures Flags(Restyle(s)) == Flags(s)
  {
    match s
    case Tail(_) =>
    case Match(_, _, _, rest) => RestyleKeepsFrame(rest);
  }

  predicate GroupsQuoteFree(s: Scanned)
  {
    match s
    case Tail(_) => true
    case Match(_, v, _, rest) => '"' !in v && GroupsQuoteFree(rest)
  }

  /** The group of a match found at `i` holds no quote, and what follows the
      closing quote is the rest of `c`. */
  lemma GroupQuoteFree(c: string, at: nat, b: string, v: string, r: string)
    requires at <= |c| && AttrAt(c, at + |b|, at + |b| + |StyleOpen| + |v|)
    requires b + StyleOpen + v + Quote + r == c[at..]
    ensures '"' !in v && r == c[at + |b| + |StyleOpen| + |v| + 1..]
  {
    var i := at + |b|;
    var head := b + StyleOpen + v + Quote;
    forall x | 0 <= x < |v| ensures v[x] != '"' {
      assert v[x] == head[|b| + |StyleOpen| + x] == c[at..][|b| + |StyleOpen| + x];
    }
    assert r == c[at..][|head|..];
  }

  /** No group the scan takes holds a double quote: a scanned run of pieces
      that spells out the rest of `c` has quote-free groups. */
  lemma {:induction false} ScannedQuoteFree(c: string, at: nat, s: Scanned,
                                            edge: (nat, nat) -> bool)
    requires at <= |c| && ScannedFrom(c, at, s, edge) && Render(s) == c[at..]
    ensures GroupsQuoteFree(s)
    decreases s
  {
    if s.Match? {
      var b, v := s.before, s.value;
      GroupQuoteFree(c, at, b, v, Render(s.rest));
      ScannedQuoteFree(c, at + |b| + |StyleOpen| + |v| + 1, s.rest, edge);
    }
  }

  /** Every rewritten group is still free of double quotes. */
  lemma {:induction false} RestyleQuoteFree(s: Scanned)
    ensures GroupsQuoteFree(s) ==> GroupsQuoteFree(Restyle(s))
  {
    match s
    case Tail(_) =>
    case Match(_, v, e, rest) =>
      TransformQuoteFree(v, e);
      RestyleQuoteFree(rest);
  }

  /** What `transform_file` does to the text: the background on every bare
      `<mxGraphModel>`, then the scan of that text, whose pieces spell it out
      exactly, are each what `re.sub` finds, and keep their frame and stay
      free of quotes once their groups are rewritten. */
  lemma TransformedTextShape(content: string)
    ensures var c := AddBackground(content);
      && Render(Scan(c)) == c
      && ScannedFrom(c, 0, Scan(c), EdgeTest(c))
      && SpansRead(c, 0, Scan(c), EdgeTest(c))
      && Frame(Restyle(Scan(c))) == Frame(Scan(c))
      && GroupsQuoteFree(Restyle(Scan(c)))
  {
    var c := AddBackground(content);
    ScanRender(c, 0, EdgeTest(c));
    ScanFaithful(c, 0, EdgeTest(c));
    ScannedSpans(c, 0, Scan(c), EdgeTest(c));
    RestyleKeepsFrame(Scan(c));
    ScannedQuoteFree(c, 0, Scan(c), EdgeTest(c));
    RestyleQuoteFree(Scan(c));
  }

  /** A text with no bare `<mxGraphModel>` and no `style="` is written back
      as it was read. */
  lemma PlainTextUnchanged(content: string)
    requires !Contains(content, GraphOpen) && !Contains(content, StyleOpen)
    ensures TransformedText(content) == content
  {
    BackgroundOnlyOnBareTag(content);
    assert FindFrom(content, StyleOpen, 0, false).None?;
    assert Scan(content) == Tail(content[0..]);
    assert content[0..] == content;
  }

  /** One iteration appends the text before the match and the rewritten
      attribute. */
  lemma RestyleStep(b: string, style: string, out: string, rest: string)
    ensures out + (b + StyleOpen + style + Quote + rest) ==
      out + b + StyleOpen + style + Quote + rest
  {
  }

  /** The loop of `RestyleText` keeps what is still to be written equal to
      the restyled rest of the scan. */
  lemma LoopStep(c: string, pos: nat, i: nat, q: nat, edge: (nat, nat) -> bool, e: bool,
                 style: string, out: string, out': string, whole: string)
    requires pos <= |c| && NextStyle(c, pos) == Some((i, q)) && e == edge(i, q + 1)
    requires style == TransformedStyle(c[i + |StyleOpen|..q], e)
    requires out' == out + c[pos..i] + StyleOpen + style + Quote
    requires out + Render(Restyle(ScanFrom(c, pos, edge))) == whole
    ensures out' + Render(Restyle(ScanFrom(c, q + 1, edge))) == whole
  {
    ScanStep(c, pos, i, q, edge);
    RestyleStep(c[pos..i], style, out, Render(Restyle(ScanFrom(c, q + 1, edge))));
  }

  /** After the last match the loop of `RestyleText` copies the rest. */
  lemma LoopEnd(c: string, pos: nat, edge: (nat, nat) -> bool, out: string, whole: string)
    requires pos <= |c| && NextStyle(c, pos) == None
    requires out + Render(Restyle(ScanFrom(c, pos, edge))) == whole
    ensures out + c[pos..] == whole
  {
  }

  /** One turn of the loop of `RestyleText`: the text up to the match at or
      after `pos`, then the match with its group rewritten by
      `transform_style`, written out after `out`. */
  method RestyleNext(c: string, pos: nat, edge: (nat, nat) -> bool, out: string, ghost whole: string)
    returns (out': string, pos': nat)
    requires pos <= |c| && NextStyle(c, pos).Some?
    requires out + Render(Restyle(ScanFrom(c, pos, edge))) == whole
    ensures pos < pos' <= |c|
    ensures out' + Render(Restyle(ScanFrom(c, pos', edge))) == whole
  {
    var (i, q) := NextStyle(c, pos).value;
    var e := edge(i, q + 1);
    var style := TransformStyle(c[i + |StyleOpen|..q], e);
    out' := out + c[pos..i] + StyleOpen + style + Quote;
    LoopStep(c, pos, i, q, edge, e, style, out, out', whole);
    pos' := q + 1;
  }

  /** `re.sub` with the callback `replace_style`: one pass over the matches
      of `c`, left to right, each group rewritten by `transform_style` with
      the edge context `edge` gives for the match. */
  method RestyleText(c: string, edge: (nat, nat) -> bool) returns (out: string)
    ensures out == Render(Restyle(ScanFrom(c, 0, edge)))
  {
    ghost var whole := Render(Restyle(ScanFrom(c, 0, edge)));
    out := [];
    var pos := 0;
    var next := NextStyle(c, pos);
    while next.Some?
      invariant pos <= |c| && next == NextStyle(c, pos)
      invariant out + Render(Restyle(ScanFrom(c, pos, edge))) == whole
      decreases |c| - pos
    {
      out, pos := RestyleNext(c, pos, edge, out, whole);
      next := NextStyle(c, pos);
    }
    LoopEnd(c, pos, edge, out, whole);
    out := out + c[pos..];
  }

  /** `transform_file` on the text it read: the background, then one pass
      over the matches, each rewritten by `transform_style` with the edge
      context read from the text before any style was rewritten. */
  method TransformText(content: string) returns (out: string)
    ensures out == TransformedText(content)
  {
    var c := ReplaceAll(content, GraphOpen, GraphOpenDark, false);
    out := RestyleText(c, EdgeTest(c));
  }
}
