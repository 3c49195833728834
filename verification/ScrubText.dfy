/** What the scrubber gives out, told from the text alone: comments are left out, all other characters
    come in their order, and a run of blanks leaves one blank or none. */
module ScrubTexts {
  import opened Characters
  import opened Wrappers
  import opened Numerals
  import opened ScrubSteps

  // ---------------------------------------------------------------------
  // The characters of a text that count
  // ---------------------------------------------------------------------

  datatype Kind = Ordinary | Part | Colon | LineEnd | Directive

  /** A character that is to come out, and whether there are blanks in front of it. */
  datatype Glyph = Glyph(c: char, gap: bool, kind: Kind)

  /** Characters that come as they are. */
  function Parts(s: string): (g: seq<Glyph>)
    ensures |g| == |s| && forall i :: 0 <= i < |s| ==> g[i] == Glyph(s[i], false, Part)
  {
    seq(|s|, i requires 0 <= i < |s| => Glyph(s[i], false, Part))
  }

  function LineEnds(n: nat): seq<Glyph> {
    seq(n, i => Glyph('\n', false, LineEnd))
  }

  /** A character constant: a number in parentheses. */
  function Constant(s: string): string {
    "(" + (Digits(if s == "" then 0 else s[0] as int % 0x100, 10) + ")")
  }

  /** The glyphs of a text, with newlines owed from comments and strings before it, and blanks before
      it, where only an open line can begin with a directive:
      - blanks and comments between a slash and a star, whose newlines come with the next one, are gaps;
      - two slashes leave out the text up to the newline;
      - a comment character leaves out the rest of the line, and a newline comes for it;
      - strings and character constants come as they are read below;
      - everything else is a glyph of its own. */
  function Glyphs(lex: Lexicon, s: string, owed: nat, gap: bool, open: bool): seq<Glyph>
    decreases |s|, 0
  {
    if s == "" then []
    else
      var c, t := s[0], s[1..];
      if c == ' ' || c == '\t' then Glyphs(lex, SkipBlanks(t), owed, true, open)
      else if c == '/' && Head(t) == Some('*') then
        Glyphs(lex, SkipBlanks(CommentEnd(t[1..])), owed + CommentLines(t[1..]), true, open)
      else if c == '/' && Head(t) == Some('/') then Glyphs(lex, LineRest(t[1..]), owed, false, open)
      else if c == '/' then [Glyph(c, false, Part)] + Glyphs(lex, t, owed, false, open)
      else if c == '"' then [Glyph(c, gap, Part)] + InString(lex, t, owed, open)
      else if c == '\'' then
        [Glyph(Constant(t)[0], gap, Part)] + (Parts(Constant(t)[1..]) + Glyphs(lex, Tail(t), owed, false, open))
      else if c == ':' then [Glyph(c, false, Colon)] + Glyphs(lex, t, owed, false, true)
      else if c == ';' then [Glyph(c, false, LineEnd)] + Glyphs(lex, t, owed, false, true)
      else if c == '\n' then LineEnds(owed + 1) + Glyphs(lex, t, 0, false, true)
      else if c in lex.comment then
        if c in lex.lineComment && open && SkipBlanks(t) != "" && IsDigit(SkipBlanks(t)[0]) then
          [Glyph(c, false, Directive)]
        else
          [Glyph('\n', false, LineEnd)] + Glyphs(lex, Tail(LineRest(t)), owed, false, true)
      else [Glyph(c, gap, Ordinary)] + Glyphs(lex, t, owed, false, false)
  }

  /** In a string every character comes as it is, up to the quotation mark that ends it.  Where the text
      ends, a quotation mark and a newline are made up. */
  function InString(lex: Lexicon, s: string, owed: nat, open: bool): seq<Glyph>
    decreases |s|, 1
  {
    if s == "" then Parts("\"") + LineEnds(owed + 1)
    else if s[0] == '"' then Parts("\"") + Glyphs(lex, s[1..], owed, false, open)
    else if s[0] == '\\' then Parts("\\") + InEscape(lex, s[1..], owed, open)
    else Parts([s[0]]) + InString(lex, s[1..], owed, open)
  }

  /** Behind a backslash so does the next character, but a newline there becomes a second backslash and
      the letter n, and is owed. */
  function InEscape(lex: Lexicon, s: string, owed: nat, open: bool): seq<Glyph>
    decreases |s|, 2
  {
    if s == "" then Parts("\"") + InString(lex, s, owed, open)
    else if s[0] == '\n' then Parts("\\n") + InString(lex, s[1..], owed + 1, open)
    else Parts([s[0]]) + InString(lex, s[1..], owed, open)
  }

  /** Tables as they are set up: a comment character is no part of a symbol and is none of those that
      are looked for before. */
  predicate Tabled(lex: Lexicon) {
    && lex.lineComment <= lex.comment && lex.comment !! lex.symbol
    && lex.comment !! {' ', '\t', '\r', '/', '"', '\'', ':', ';', '\n'}
    && lex.symbol !! {' ', '\t', '\r', '/', '"', '\'', ':', ';', '\n'}
  }

  /** No line of the text is a directive of the preprocessor. */
  ghost predicate NoDirective(all: seq<Glyph>) {
    forall i :: 0 <= i < |all| ==> !all[i].kind.Directive?
  }

  // ---------------------------------------------------------------------
  // Blanks
  // ---------------------------------------------------------------------

  /** Glyphs, some of them with a blank in front. */
  function Spread(given: seq<Glyph>, blanks: seq<bool>): string
    requires |given| == |blanks|
  {
    if given == [] then ""
    else
      var n := |given| - 1;
      Spread(given[..n], blanks[..n]) + (if blanks[n] then " " else "") + [given[n].c]
  }

  /** What matters for the next blank.  Since the last line end or semicolon: how many gaps there were,
      whether the first of them led the line, and whether an ordinary character was given out behind the
      last colon; how many blanks were given out since the last colon or line end; whether a gap before a
      string or a constant was left out; and whether the last glyph belongs to a symbol. */
  datatype Tally = Tally(gaps: nat, lead: bool, plain: bool, wide: nat, owing: bool, last: bool)

  const START := Tally(0, false, false, 0, false, false)

  predicate Symbolic(lex: Lexicon, g: Glyph) {
    g.kind.Ordinary? && g.c in lex.symbol
  }

  /** A gap and a blank are told of before the glyph they belong to. */
  function Early(t: Tally, gap: bool, blank: bool): Tally {
    var u := if gap then t.(gaps := t.gaps + 1, lead := if t.gaps == 0 then !t.plain else t.lead) else t;
    if blank then u.(wide := t.wide + 1) else u
  }

  function Late(lex: Lexicon, t: Tally, g: Glyph, blank: bool): Tally {
    match g.kind
    case Ordinary => t.(plain := true, owing := false, last := Symbolic(lex, g))
    case Part => t.(owing := t.owing || (g.gap && !blank), last := false)
    case Colon => t.(plain := false, wide := 0, owing := false, last := false)
    case LineEnd => START
    case Directive => START
  }

  function TallyOf(lex: Lexicon, given: seq<Glyph>, blanks: seq<bool>): Tally
    requires |given| == |blanks|
  {
    if given == [] then START
    else
      var n := |given| - 1;
      Late(lex, Early(TallyOf(lex, given[..n], blanks[..n]), given[n].gap, blanks[n]), given[n], blanks[n])
  }

  /** The first gap of a line, and the second one unless it comes straight behind the first. */
  predicate Keeps(t: Tally) {
    t.gaps == 0 || (t.gaps == 1 && (!t.lead || t.plain))
  }

  /** A blank is only given out for a gap, or for one before a string or a constant that was left out;
      it always is between two characters of symbols, and at the first places of a line; and elsewhere
      only before symbols. */
  predicate Spaced(lex: Lexicon, t: Tally, g: Glyph, blank: bool) {
    && (blank ==> g.gap || (t.owing && Symbolic(lex, g)))
    && (g.gap && t.last && Symbolic(lex, g) ==> blank)
    && (g.gap && Keeps(t) ==> blank)
    && (blank && !Symbolic(lex, g) ==> t.wide < 3)
  }

  predicate WellSpaced(lex: Lexicon, given: seq<Glyph>, blanks: seq<bool>)
    requires |given| == |blanks|
  {
    given == [] ||
    var n := |given| - 1;
    WellSpaced(lex, given[..n], blanks[..n]) && Spaced(lex, TallyOf(lex, given[..n], blanks[..n]), given[n], blanks[n])
  }

  // ---------------------------------------------------------------------
  // The scrubber and the text
  // ---------------------------------------------------------------------

  /** What has been given out, and what has been read of what comes next: a gap, a blank already given
      out, and whether the line is open. */
  datatype Track = Track(given: seq<Glyph>, blanks: seq<bool>, gap: bool, blank: bool, open: bool)

  /** The state outside of strings and constants. */
  function Return(v: View): int {
    if v.state == 5 || v.state == 6 || v.state == -1 then v.oldState else v.state
  }

  function ToCome(lex: Lexicon, v: View, k: Track): seq<Glyph> {
    if v.state == 5 then InString(lex, v.rest, v.owed, k.open)
    else if v.state == 6 then InEscape(lex, v.rest, v.owed, k.open)
    else if v.state == -1 then Parts(v.outString) + Glyphs(lex, v.rest, v.owed, false, k.open)
    else Glyphs(lex, v.rest, v.owed, k.gap, k.open)
  }

  /** What a state says about the blanks so far. */
  predicate Level(p: int, sub: int, t: Tally, gap: bool, blank: bool, open: bool) {
    var e := Early(t, gap, blank);
    && Plain(p) && 0 <= sub <= 1 && (sub == 1 ==> p == 2)
    && (p == 0 ==> open && !e.plain && e.wide == 0)
    && (p == 1 ==> e.wide <= 1) && (p == 2 ==> e.wide <= 1 + sub)
    && (e.gaps == 0 ==> sub == 0 && p == if e.plain then 2 else 0)
    && (e.gaps == 1 && !e.lead ==> p == 0 || p == 2)
    && (e.gaps == 1 && e.lead ==> 0 <= p <= 2 && sub == 0 && (e.plain ==> p == 2))
    && (p == 10 ==> gap || e.owing)
    && (t.last && !blank ==> if gap then p == 10 else p == 2 || p == 9)
    && (gap && !blank ==> !Keeps(t))
  }

  /** Characters that a blank can stand in front of. */
  predicate Soft(lex: Lexicon, c: char) {
    !IsWhitespace(c) && c != '/' && !IsLineSeparator(c) && c !in lex.comment
  }

  predicate Waiting(lex: Lexicon, v: View, t: Tally, k: Track) {
    && Plain(v.state) && v.rest != "" && Soft(lex, v.rest[0])
    && (k.blank ==>
          && v.state != 10
          && (k.gap || (t.owing && v.rest[0] in lex.symbol))
          && (t.wide < 3 || v.rest[0] in lex.symbol))
  }

  ghost predicate Holds(lex: Lexicon, v: View, k: Track, all: seq<Glyph>) {
    && Common(v) && |k.given| == |k.blanks| && k.given + ToCome(lex, v, k) == all
    && WellSpaced(lex, k.given, k.blanks)
    && Level(Return(v), v.substate, TallyOf(lex, k.given, k.blanks), k.gap, k.blank, k.open)
    && (k.gap || k.blank ==> Waiting(lex, v, TallyOf(lex, k.given, k.blanks), k))
  }

  /** A blank is given out, or the next glyph. */
  predicate Gives(k: Track, c: char, k': Track) {
    || (c == ' ' && !k.blank && k'.blank && k'.given == k.given && k'.blanks == k.blanks)
    || (&& !k'.blank && |k'.given| == |k.given| + 1 && k'.given[..|k.given|] == k.given
        && k'.given[|k.given|].c == c && k'.blanks == k.blanks + [k.blank])
  }

  /** The next glyph is given out. */
  function Onward(k: Track, g: Glyph, open: bool): Track {
    Track(k.given + [g], k.blanks + [k.blank], false, false, open)
  }

  lemma OnwardHolds(lex: Lexicon, v: View, k: Track, all: seq<Glyph>, g: Glyph, w: View, open: bool)
    requires Holds(lex, v, k, all) && Common(w)
    requires ToCome(lex, v, k) == [g] + ToCome(lex, w, Onward(k, g, open))
    requires var t := TallyOf(lex, k.given, k.blanks);
      && Spaced(lex, t, g, k.blank)
      && Level(Return(w), w.substate, Late(lex, Early(t, g.gap, k.blank), g, k.blank), false, false, open)
    ensures Holds(lex, w, Onward(k, g, open), all) && Gives(k, g.c, Onward(k, g, open))
  {
    hide ToCome, Level, Spaced, Waiting, Early, Late, Common, Return;
    var n := |k.given|;
    var k' := Onward(k, g, open);
    assert k'.given[..n] == k.given && k'.blanks[..n] == k.blanks;
    assert k.given + ([g] + ToCome(lex, w, k')) == (k.given + [g]) + ToCome(lex, w, k');
  }

  // ---------------------------------------------------------------------
  // What each turn does to the blanks
  // ---------------------------------------------------------------------

  lemma LevelOrdinary(lex: Lexicon, p: int, sub: int, t: Tally, g: Glyph, blank: bool, open: bool)
    requires Level(p, sub, t, g.gap, blank, open) && g.kind.Ordinary?
    requires p == 10 ==> !blank && g.c !in lex.symbol
    requires blank ==> (g.gap || (t.owing && g.c in lex.symbol)) && (t.wide < 3 || g.c in lex.symbol)
    ensures Spaced(lex, t, g, blank)
    ensures var q := if p <= 1 then 2 else if g.c in lex.symbol && p == 3 then 9
                     else if g.c !in lex.symbol && (p == 9 || p == 10) then 3 else p;
      Level(q, sub, Late(lex, Early(t, g.gap, blank), g, blank), false, false, false)
  {
  }

  lemma LevelPart(lex: Lexicon, p: int, sub: int, t: Tally, g: Glyph, blank: bool, open: bool)
    requires Level(p, sub, t, g.gap, blank, open) && g.kind.Part?
    requires blank ==> p != 10 && g.gap && t.wide < 3
    ensures Spaced(lex, t, g, blank)
    ensures Level(p, sub, Late(lex, Early(t, g.gap, blank), g, blank), false, false, open)
  {
  }

  lemma LevelColon(lex: Lexicon, p: int, sub: int, t: Tally, g: Glyph, open: bool)
    requires Level(p, sub, t, false, false, open) && g.kind.Colon? && !g.gap
    ensures Spaced(lex, t, g, false)
    ensures Level(if p == 3 then 3 else 0, if p == 3 then sub else 0, Late(lex, Early(t, false, false), g, false),
                  false, false, true)
  {
  }

  lemma LevelEnd(lex: Lexicon, p: int, sub: int, t: Tally, g: Glyph, open: bool)
    requires Level(p, sub, t, false, false, open) && g.kind.LineEnd? && !g.gap
    ensures Spaced(lex, t, g, false)
    ensures Level(0, 0, Late(lex, Early(t, false, false), g, false), false, false, true)
  {
  }

  lemma LevelBlank(v: View, t: Tally, open: bool)
    requires Level(v.state, v.substate, t, false, false, open)
    ensures var b := Blank(v);
      Level(b.v.state, b.v.substate, t, true, b.done, open) && (b.done ==> t.wide < 3 && b.v.state != 10)
  {
  }

  lemma LevelOwing(sub: int, t: Tally, gap: bool, open: bool)
    requires Level(10, sub, t, gap, false, open)
    ensures Level(3, sub, t, gap, true, open) && (gap || t.owing)
  {
  }

  // ---------------------------------------------------------------------
  // Each kind of character
  // ---------------------------------------------------------------------

  /** A character of no special kind, when no blank comes before it. */
  lemma OrdinaryTurn(lex: Lexicon, v: View, k: Track, all: seq<Glyph>) returns (k': Track)
    requires Tabled(lex) && Holds(lex, v, k, all) && Plain(v.state) && v.rest != "" && !IsMark(v.rest[0])
    requires v.rest[0] !in {' ', '\t', '/'} && v.rest[0] !in lex.comment
    ensures var r := Misc(lex, v.rest[0], v.(rest := v.rest[1..]));
      r.c.Some? && Holds(lex, r.v, k', all) && Gives(k, r.c.value, k')
  {
    var c, t := v.rest[0], TallyOf(lex, k.given, k.blanks);
    if c in lex.symbol && v.state == 10 {
      LevelOwing(v.substate, t, k.gap, k.open);
      k' := k.(blank := true);
      assert [c] + v.rest[1..] == v.rest;
      hide Level, Glyphs, WellSpaced, TallyOf;
    } else {
      var g := Glyph(c, k.gap, Ordinary);
      k' := Onward(k, g, false);
      LevelOrdinary(lex, v.state, v.substate, t, g, k.blank, k.open);
      var r := Misc(lex, c, v.(rest := v.rest[1..]));
      assert ToCome(lex, v, k) == [g] + ToCome(lex, r.v, k');
      hide Level, Glyphs, WellSpaced, TallyOf, Spaced, Early, Late;
      OnwardHolds(lex, v, k, all, g, r.v, false);
    }
  }

  lemma {:induction false} BlankLine(s: string)
    requires SkipBlanks(s) == ""
    ensures LineRest(s) == ""
  {
    if s != "" {
      BlankLine(s[1..]);
    }
  }

  /** The next glyph is one of all. */
  lemma NextOf(lex: Lexicon, v: View, k: Track, all: seq<Glyph>)
    requires Holds(lex, v, k, all) && NoDirective(all)
    ensures ToCome(lex, v, k) != [] ==> !ToCome(lex, v, k)[0].kind.Directive?
  {
    if ToCome(lex, v, k) != [] {
      assert all[|k.given|] == ToCome(lex, v, k)[0];
    }
  }

  /** A character that starts a comment: a newline comes for it. */
  lemma CommentTurn(lex: Lexicon, v: View, k: Track, all: seq<Glyph>) returns (k': Track)
    requires Tabled(lex) && Holds(lex, v, k, all) && NoDirective(all) && Plain(v.state)
    requires v.rest != "" && v.rest[0] in lex.comment
    ensures var r := Misc(lex, v.rest[0], v.(rest := v.rest[1..]));
      r.c.Some? && Holds(lex, r.v, k', all) && Gives(k, r.c.value, k')
  {
    var c, behind, t := v.rest[0], v.rest[1..], TallyOf(lex, k.given, k.blanks);
    assert !Soft(lex, c);
    var g := Glyph('\n', false, LineEnd);
    k' := Onward(k, g, true);
    NextOf(lex, v, k, all);
    LevelEnd(lex, v.state, v.substate, t, g, k.open);
    var r := Misc(lex, c, v.(rest := behind));
    CommentReads(lex, v, k);
    hide Level, Glyphs, WellSpaced, TallyOf, Spaced, Early, Late;
    OnwardHolds(lex, v, k, all, g, r.v, true);
  }

  lemma CommentReads(lex: Lexicon, v: View, k: Track)
    requires Tabled(lex) && Plain(v.state) && v.rest != "" && v.rest[0] in lex.comment
    requires v.state == 0 ==> k.open && v.substate == 0
    requires ToCome(lex, v, k) != [] ==> !ToCome(lex, v, k)[0].kind.Directive?
    ensures var r := Misc(lex, v.rest[0], v.(rest := v.rest[1..]));
      && r.c == Some('\n') && r.v.state == 0 && r.v.substate == 0
      && ToCome(lex, v, k)
         == [Glyph('\n', false, LineEnd)] + ToCome(lex, r.v, Onward(k, Glyph('\n', false, LineEnd), true))
  {
    var behind := v.rest[1..];
    if SkipBlanks(behind) == "" {
      BlankLine(behind);
    }
  }

  /** Characters that stand for themselves and are never dropped. */
  lemma MarkTurn(lex: Lexicon, v: View, k: Track, all: seq<Glyph>) returns (k': Track)
    requires Tabled(lex) && Holds(lex, v, k, all) && Plain(v.state) && v.rest != "" && IsMark(v.rest[0])
    ensures var r := Mark(v.rest[0], v.(rest := v.rest[1..]));
      r.c.Some? && Holds(lex, r.v, k', all) && Gives(k, r.c.value, k')
  {
    var c := v.rest[0];
    if c == '"' {
      k' := QuotationTurn(lex, v, k, all);
    } else if c == '\'' {
      k' := ConstantTurn(lex, v, k, all);
    } else if c == '\n' {
      k' := NewlineTurn(lex, v, k, all);
    } else {
      k' := SeparatorTurn(lex, v, k, all);
    }
  }

  lemma QuotationTurn(lex: Lexicon, v: View, k: Track, all: seq<Glyph>) returns (k': Track)
    requires Tabled(lex) && Holds(lex, v, k, all) && Plain(v.state) && v.rest != "" && v.rest[0] == '"'
    ensures var r := Mark('"', v.(rest := v.rest[1..]));
      r.c.Some? && Holds(lex, r.v, k', all) && Gives(k, r.c.value, k')
  {
    var t, g := TallyOf(lex, k.given, k.blanks), Glyph('"', k.gap, Part);
    k' := Onward(k, g, k.open);
    LevelPart(lex, v.state, v.substate, t, g, k.blank, k.open);
    var r := Mark('"', v.(rest := v.rest[1..]));
    assert ToCome(lex, v, k) == [g] + ToCome(lex, r.v, k');
    hide Level, Glyphs, InString, WellSpaced, TallyOf, Spaced, Early, Late;
    OnwardHolds(lex, v, k, all, g, r.v, k.open);
  }

  lemma ConstantTurn(lex: Lexicon, v: View, k: Track, all: seq<Glyph>) returns (k': Track)
    requires Tabled(lex) && Holds(lex, v, k, all) && Plain(v.state) && v.rest != "" && v.rest[0] == '\''
    ensures var r := Mark('\'', v.(rest := v.rest[1..]));
      r.c.Some? && Holds(lex, r.v, k', all) && Gives(k, r.c.value, k')
  {
    var t, g := TallyOf(lex, k.given, k.blanks), Glyph('(', k.gap, Part);
    k' := Onward(k, g, k.open);
    LevelPart(lex, v.state, v.substate, t, g, k.blank, k.open);
    var r := Mark('\'', v.(rest := v.rest[1..]));
    ConstantParts(v.rest[1..]);
    hide Digits, Constant;
    assert ToCome(lex, v, k) == [g] + ToCome(lex, r.v, k');
    hide Level, Glyphs, WellSpaced, TallyOf, Spaced, Early, Late;
    OnwardHolds(lex, v, k, all, g, r.v, k.open);
  }

  lemma ConstantParts(s: string)
    ensures Constant(s)[0] == '('
    ensures Constant(s)[1..] == Digits(if s == "" then 0 else s[0] as int % 0x100, 10) + ")"
  {
  }

  lemma NewlineTurn(lex: Lexicon, v: View, k: Track, all: seq<Glyph>) returns (k': Track)
    requires Tabled(lex) && Holds(lex, v, k, all) && Plain(v.state) && v.rest != "" && v.rest[0] == '\n'
    ensures var r := Mark('\n', v.(rest := v.rest[1..]));
      r.c.Some? && Holds(lex, r.v, k', all) && Gives(k, r.c.value, k')
  {
    var t, g := TallyOf(lex, k.given, k.blanks), Glyph('\n', false, LineEnd);
    assert !Soft(lex, '\n');
    k' := Onward(k, g, true);
    LevelEnd(lex, v.state, v.substate, t, g, k.open);
    var r := Mark('\n', v.(rest := v.rest[1..]));
    assert LineEnds(v.owed + 1) == [g] + LineEnds(v.owed);
    assert ['\n'] + v.rest[1..] == v.rest;
    if v.owed == 0 {
      assert LineEnds(0) == [];
    }
    assert ToCome(lex, v, k) == [g] + ToCome(lex, r.v, k');
    hide Level, Glyphs, WellSpaced, TallyOf, Spaced, Early, Late;
    OnwardHolds(lex, v, k, all, g, r.v, true);
  }

  lemma SeparatorTurn(lex: Lexicon, v: View, k: Track, all: seq<Glyph>) returns (k': Track)
    requires Tabled(lex) && Holds(lex, v, k, all) && Plain(v.state) && v.rest != ""
    requires v.rest[0] == ':' || v.rest[0] == ';'
    ensures var r := Mark(v.rest[0], v.(rest := v.rest[1..]));
      r.c.Some? && Holds(lex, r.v, k', all) && Gives(k, r.c.value, k')
  {
    var c, t := v.rest[0], TallyOf(lex, k.given, k.blanks);
    var g := Glyph(c, false, if c == ':' then Colon else LineEnd);
    assert !Soft(lex, c);
    k' := Onward(k, g, true);
    if c == ':' {
      LevelColon(lex, v.state, v.substate, t, g, k.open);
    } else {
      LevelEnd(lex, v.state, v.substate, t, g, k.open);
    }
    var r := Mark(c, v.(rest := v.rest[1..]));
    assert ToCome(lex, v, k) == [g] + ToCome(lex, r.v, k');
    hide Level, Glyphs, WellSpaced, TallyOf, Spaced, Early, Late;
    OnwardHolds(lex, v, k, all, g, r.v, true);
  }

  /** A slash: a comment is gone over, or it is given out. */
  lemma SlashTurn(lex: Lexicon, v: View, k: Track, all: seq<Glyph>) returns (k': Track)
    requires Tabled(lex) && Holds(lex, v, k, all) && Plain(v.state) && v.rest != "" && v.rest[0] == '/'
    ensures var r := Slash(lex, v.(rest := v.rest[1..]));
      if r.done then r.c == Some('/') && Holds(lex, r.v, k', all) && Gives(k, '/', k')
      else Holds(lex, r.v, k', all) && k' == k && !k.blank
  {
    var r, t := Slash(lex, v.(rest := v.rest[1..])), TallyOf(lex, k.given, k.blanks);
    assert !Soft(lex, '/');
    if r.done {
      var g := Glyph('/', false, Part);
      k' := Onward(k, g, k.open);
      LevelPart(lex, v.state, v.substate, t, g, k.blank, k.open);
      assert ToCome(lex, v, k) == [g] + ToCome(lex, r.v, k');
      hide Level, Glyphs, WellSpaced, TallyOf, Spaced, Early, Late;
      OnwardHolds(lex, v, k, all, g, r.v, k.open);
    } else {
      k' := k;
      SlashReads(lex, v, k);
      hide Level, Glyphs, WellSpaced, TallyOf;
    }
  }

  lemma SlashReads(lex: Lexicon, v: View, k: Track)
    requires Tabled(lex) && Plain(v.state) && v.rest != "" && v.rest[0] == '/' && !k.gap
    ensures var r := Slash(lex, v.(rest := v.rest[1..]));
      !r.done ==> Plain(r.v.state) && ToCome(lex, r.v, k) == ToCome(lex, v, k)
  {
    var t := v.rest[1..];
    if Head(t) == Some('*') {
      var end := CommentEnd(t[1..]);
      assert ([' '] + end)[1..] == end;
    }
  }

  /** Blanks: one of them is given out, or none. */
  lemma BlankTurn(lex: Lexicon, v: View, k: Track, all: seq<Glyph>) returns (k': Track)
    requires Tabled(lex) && Holds(lex, v, k, all) && Plain(v.state) && v.rest != ""
    requires v.rest[0] == ' ' || v.rest[0] == '\t'
    ensures var r := Blanks(lex, v.(rest := v.rest[1..]));
      if r.done && r.c.None? then ToCome(lex, v, k) == [] && !k.blank && k' == k
      else if r.done then r.c == Some(' ') && Holds(lex, r.v, k', all) && Gives(k, ' ', k')
      else Holds(lex, r.v, k', all) && k'.given == k.given && k'.blanks == k.blanks && !k'.blank && !k.blank
  {
    var w, t := v.(rest := SkipBlanks(v.rest[1..])), TallyOf(lex, k.given, k.blanks);
    assert !Soft(lex, v.rest[0]);
    if w.rest == "" {
      k' := k;
      assert ToCome(lex, v, k) == Glyphs(lex, w.rest, v.owed, true, k.open);
      assert Glyphs(lex, "", v.owed, true, k.open) == [];
    } else if Drops(lex, v.state, w.rest[0]) {
      k' := k;
      HardReads(lex, w.rest, v.owed, k.open);
      assert ToCome(lex, v, k) == Glyphs(lex, w.rest, v.owed, true, k.open);
      hide Level, Glyphs, WellSpaced, TallyOf;
    } else {
      var r := Blank(w);
      k' := k.(gap := true, blank := r.done);
      LevelBlank(w, t, k.open);
      assert ToCome(lex, v, k) == ToCome(lex, r.v, k');
      hide Level, Glyphs, WellSpaced, TallyOf;
    }
  }

  /** Blanks in front of some characters do not count. */
  lemma HardReads(lex: Lexicon, s: string, owed: nat, open: bool)
    requires s != "" && (s[0] in lex.comment || s[0] == '/' || IsLineSeparator(s[0])) && Tabled(lex)
    ensures Glyphs(lex, s, owed, true, open) == Glyphs(lex, s, owed, false, open)
  {
  }

  lemma OneTurnHolds(lex: Lexicon, v: View, k: Track, all: seq<Glyph>) returns (k': Track)
    requires Tabled(lex) && Holds(lex, v, k, all) && NoDirective(all) && Plain(v.state)
    ensures var r := OneTurn(lex, v);
      if r.done && r.c.None? then ToCome(lex, v, k) == [] && !k.blank && k' == k
      else if r.done then Holds(lex, r.v, k', all) && Gives(k, r.c.value, k')
      else Holds(lex, r.v, k', all) && k'.given == k.given && k'.blanks == k.blanks && !k'.blank && !k.blank
  {
    hide Holds, Gives, Misc, Mark, Slash, Blanks, Glyphs, InString, InEscape;
    if v.rest == "" {
      k' := k;
      NothingLeft(lex, v, k, all);
    } else if v.rest[0] == ' ' || v.rest[0] == '\t' {
      k' := BlankTurn(lex, v, k, all);
    } else if v.rest[0] == '/' {
      k' := SlashTurn(lex, v, k, all);
    } else if IsMark(v.rest[0]) {
      k' := MarkTurn(lex, v, k, all);
    } else if v.rest[0] in lex.comment {
      k' := CommentTurn(lex, v, k, all);
    } else {
      k' := OrdinaryTurn(lex, v, k, all);
    }
  }

  lemma NothingLeft(lex: Lexicon, v: View, k: Track, all: seq<Glyph>)
    requires Holds(lex, v, k, all) && Plain(v.state) && v.rest == ""
    ensures ToCome(lex, v, k) == [] && !k.blank
  {
  }

  // ---------------------------------------------------------------------
  // Each step
  // ---------------------------------------------------------------------

  lemma {:induction false} FlushHolds(lex: Lexicon, v: View, k: Track, all: seq<Glyph>) returns (k': Track)
    requires Tabled(lex) && Holds(lex, v, k, all) && NoDirective(all) && Plain(v.state)
    ensures var r := Flush(lex, v);
      if r.c.None? then !k'.blank && k'.given == k.given == all && k'.blanks == k.blanks && !k.blank
      else Holds(lex, r.v, k', all) && Gives(k, r.c.value, k')
    decreases |v.rest|
  {
    hide Holds, Gives, OneTurn, ToCome;
    var t := OneTurn(lex, v);
    k' := OneTurnHolds(lex, v, k, all);
    if !t.done {
      var mid := k';
      k' := FlushHolds(lex, t.v, k', all);
      GivesAfter(k, mid, k', Flush(lex, v).c);
    } else if t.c.None? {
      AllGiven(lex, v, k, all);
    }
  }

  lemma GivesAfter(k: Track, mid: Track, k': Track, c: Option<char>)
    requires mid.given == k.given && mid.blanks == k.blanks && !mid.blank && !k.blank
    requires c.Some? ==> Gives(mid, c.value, k')
    ensures c.Some? ==> Gives(k, c.value, k')
  {
  }

  lemma AllGiven(lex: Lexicon, v: View, k: Track, all: seq<Glyph>)
    requires Holds(lex, v, k, all) && ToCome(lex, v, k) == []
    ensures k.given == all
  {
    hide ToCome, Level, WellSpaced;
  }

  /** A character that comes as it is. */
  lemma PartHolds(lex: Lexicon, v: View, k: Track, all: seq<Glyph>, c: char, w: View)
    requires Holds(lex, v, k, all) && Common(w) && !Plain(v.state)
    requires ToCome(lex, v, k) == Parts([c]) + ToCome(lex, w, Onward(k, Glyph(c, false, Part), k.open))
    requires Return(w) == Return(v) && w.substate == v.substate
    ensures var k' := Onward(k, Glyph(c, false, Part), k.open);
      Holds(lex, w, k', all) && Gives(k, c, k')
  {
    var t, g := TallyOf(lex, k.given, k.blanks), Glyph(c, false, Part);
    LevelPart(lex, Return(v), v.substate, t, g, false, k.open);
    assert Parts([c]) == [g];
    hide Level, WellSpaced, TallyOf, Spaced, Early, Late, ToCome;
    OnwardHolds(lex, v, k, all, g, w, k.open);
  }

  lemma StringHolds(lex: Lexicon, v: View, k: Track, all: seq<Glyph>) returns (k': Track)
    requires Tabled(lex) && Holds(lex, v, k, all) && v.state == 5 && Plain(v.oldState)
    ensures var r := StringChar(v);
      r.c.Some? && Holds(lex, r.v, k', all) && Gives(k, r.c.value, k')
  {
    var r := StringChar(v);
    var c := r.c.value;
    k' := Onward(k, Glyph(c, false, Part), k.open);
    if v.rest == "" {
      assert LineEnds(v.owed + 1) + [] == LineEnds(v.owed + 1);
      assert "\n"[1..] == "";
    }
    assert ToCome(lex, v, k) == Parts([c]) + ToCome(lex, r.v, k');
    hide Holds, Gives, ToCome;
    PartHolds(lex, v, k, all, c, r.v);
  }

  lemma EscapeHolds(lex: Lexicon, v: View, k: Track, all: seq<Glyph>) returns (k': Track)
    requires Tabled(lex) && Holds(lex, v, k, all) && v.state == 6 && Plain(v.oldState)
    ensures var r := Escape(v);
      r.c.Some? && Holds(lex, r.v, k', all) && Gives(k, r.c.value, k')
  {
    var r := Escape(v);
    var c := r.c.value;
    k' := Onward(k, Glyph(c, false, Part), k.open);
    if v.rest != "" && v.rest[0] == '\n' {
      assert Parts("\\n") == Parts("\\") + Parts("n");
      assert (['n'] + v.rest[1..])[1..] == v.rest[1..];
    }
    assert ToCome(lex, v, k) == Parts([c]) + ToCome(lex, r.v, k');
    hide Holds, Gives, ToCome;
    PartHolds(lex, v, k, all, c, r.v);
  }

  lemma OutHolds(lex: Lexicon, v: View, k: Track, all: seq<Glyph>) returns (k': Track)
    requires Tabled(lex) && Holds(lex, v, k, all) && v.state == -1 && Plain(v.oldState)
    ensures var r := FromOutString(v);
      r.c.Some? && Holds(lex, r.v, k', all) && Gives(k, r.c.value, k')
  {
    var r := FromOutString(v);
    var c := r.c.value;
    k' := Onward(k, Glyph(c, false, Part), k.open);
    assert Parts(v.outString) == Parts([c]) + Parts(v.outString[1..]);
    if v.outString[1..] == "" {
      assert Parts(v.outString[1..]) == [];
    }
    assert ToCome(lex, v, k) == Parts([c]) + ToCome(lex, r.v, k');
    hide Holds, Gives, ToCome;
    PartHolds(lex, v, k, all, c, r.v);
  }

  lemma ReturnPlain(lex: Lexicon, v: View, k: Track, all: seq<Glyph>)
    requires Holds(lex, v, k, all)
    ensures Plain(Return(v))
  {
  }

  /** Every step gives out a blank or the next glyph, until all are given out. */
  lemma StepHolds(lex: Lexicon, v: View, k: Track, all: seq<Glyph>) returns (k': Track)
    requires Tabled(lex) && Holds(lex, v, k, all) && NoDirective(all)
    ensures Common(v)
    ensures var r := Step(lex, v);
      if r.c.None? then !k'.blank && k'.given == k.given == all && k'.blanks == k.blanks && !k.blank
      else Holds(lex, r.v, k', all) && Gives(k, r.c.value, k')
  {
    CommonHolds(lex, v, k, all);
    ReturnPlain(lex, v, k, all);
    hide Holds, Gives, StringChar, Escape, FromOutString, Flush;
    if v.state == 5 {
      k' := StringHolds(lex, v, k, all);
    } else if v.state == 6 {
      k' := EscapeHolds(lex, v, k, all);
    } else if v.state == -1 {
      k' := OutHolds(lex, v, k, all);
    } else {
      k' := FlushHolds(lex, v, k, all);
    }
  }

  lemma CommonHolds(lex: Lexicon, v: View, k: Track, all: seq<Glyph>)
    requires Holds(lex, v, k, all)
    ensures Common(v)
  {
  }

  /** What has come out so far. */
  ghost function Shown(k: Track): string
    requires |k.given| == |k.blanks|
  {
    Spread(k.given, k.blanks) + if k.blank then " " else ""
  }

  lemma ShownMore(k: Track, c: char, k': Track)
    requires |k.given| == |k.blanks| && |k'.given| == |k'.blanks| && Gives(k, c, k')
    ensures Shown(k') == Shown(k) + [c]
  {
    var n := |k.given|;
    if |k'.given| == n {
      assert k'.given == k.given && k'.blanks == k.blanks;
      assert Spread(k.given, k.blanks) + "" == Spread(k.given, k.blanks);
    } else {
      assert k'.blanks[..n] == k.blanks;
      assert Spread(k'.given, k'.blanks) + "" == Spread(k'.given, k'.blanks);
    }
  }

  lemma {:induction false} SpreadLength(given: seq<Glyph>, blanks: seq<bool>)
    requires |given| == |blanks|
    ensures |Spread(given, blanks)| <= 2 * |given|
  {
    if given != [] {
      SpreadLength(given[..|given| - 1], blanks[..|given| - 1]);
    }
  }

  /** Every glyph is spaced as those before it ask for. */
  lemma {:induction false} SpacedAt(lex: Lexicon, given: seq<Glyph>, blanks: seq<bool>, i: nat)
    requires |given| == |blanks| && i < |given| && WellSpaced(lex, given, blanks)
    ensures Spaced(lex, TallyOf(lex, given[..i], blanks[..i]), given[i], blanks[i])
    decreases |given|
  {
    hide Spaced, TallyOf;
    var n := |given| - 1;
    if i < n {
      SpacedAt(lex, given[..n], blanks[..n], i);
      assert given[..n][..i] == given[..i] && blanks[..n][..i] == blanks[..i];
    }
  }

  /** What has been given out, in a text without directives, is a beginning of the glyphs of the text,
      with blanks in front of them as is right. */
  ghost predicate Faithful(lex: Lexicon, k: Track, all: seq<Glyph>) {
    |k.given| == |k.blanks| && k.given <= all && WellSpaced(lex, k.given, k.blanks)
  }

  lemma HoldsFaithful(lex: Lexicon, v: View, k: Track, all: seq<Glyph>)
    requires Holds(lex, v, k, all)
    ensures Faithful(lex, k, all) && Common(v)
  {
    hide WellSpaced, Level, ToCome;
  }

  /** At the start nothing has been given out. */
  function Begun(): Track {
    Track([], [], false, false, true)
  }

  lemma StartHolds(lex: Lexicon, input: string)
    ensures Holds(lex, View(input, 0, 0, "", 0, 0), Begun(), Glyphs(lex, input, 0, false, true))
  {
    var all := Glyphs(lex, input, 0, false, true);
    assert [] + all == all;
  }

  // ---------------------------------------------------------------------
  // What is left out of a text, character by character
  // ---------------------------------------------------------------------

  /** Blanks end at the first other character. */
  lemma {:induction false} BlanksEnd(s: string)
    ensures var n := |s| - |SkipBlanks(s)|;
      && SkipBlanks(s) == s[n..] && (forall i :: 0 <= i < n ==> s[i] in " \t\r")
      && (n < |s| ==> s[n] !in " \t\r")
  {
    if s != "" && s[0] in " \t\r" {
      var t := s[1..];
      BlanksEnd(t);
      var n := |t| - |SkipBlanks(t)|;
      assert t[n..] == s[n + 1..];
      forall i | 0 <= i < n + 1 ensures s[i] in " \t\r" {
        assert i > 0 ==> s[i] == t[i - 1];
      }
    }
  }

  /** A comment of a line ends at the first newline. */
  lemma {:induction false} LineCommentEnds(s: string)
    ensures var n := |s| - |LineRest(s)|;
      && LineRest(s) == s[n..] && (forall i :: 0 <= i < n ==> s[i] != '\n') && (n < |s| ==> s[n] == '\n')
  {
    if s != "" && s[0] != '\n' {
      var t := s[1..];
      LineCommentEnds(t);
      var n := |t| - |LineRest(t)|;
      assert t[n..] == s[n + 1..];
      forall i | 0 <= i < n + 1 ensures s[i] != '\n' {
        assert i > 0 ==> s[i] == t[i - 1];
      }
    }
  }

  /** A star and a slash stand at i. */
  predicate StarSlash(s: string, i: nat) {
    i + 2 <= |s| && s[i] == '*' && s[i + 1] == '/'
  }

  /** A comment between stars ends at the first star with a slash behind it, or with the text. */
  lemma {:induction false} StarCommentEnds(s: string)
    ensures (forall i :: 0 <= i < |s| ==> !StarSlash(s, i)) ==> CommentEnd(s) == ""
    ensures forall n :: 0 <= n < |s| && StarSlash(s, n) && (forall i :: 0 <= i < n ==> !StarSlash(s, i)) ==>
      CommentEnd(s) == s[n + 2..]
  {
    if |s| >= 2 && !StarSlash(s, 0) {
      var t := s[1..];
      StarCommentEnds(t);
      assert forall i :: 0 <= i < |t| ==> StarSlash(t, i) == StarSlash(s, i + 1);
      forall n | 0 <= n < |s| && StarSlash(s, n) && (forall i :: 0 <= i < n ==> !StarSlash(s, i))
        ensures CommentEnd(s) == s[n + 2..]
      {
        forall i | 0 <= i < n - 1 ensures !StarSlash(t, i) {
          assert !StarSlash(s, i + 1);
        }
        assert StarSlash(t, n - 1);
        assert CommentEnd(t) == t[n - 1 + 2..] == s[n + 2..];
      }
      if forall i :: 0 <= i < |s| ==> !StarSlash(s, i) {
        forall i | 0 <= i < |t| ensures !StarSlash(t, i) {
          assert !StarSlash(s, i + 1);
        }
      }
    }
  }

  /** The inside of a string: single characters, and others behind a backslash. */
  predicate Inside(body: string) {
    body == ""
    || (body[0] != '"' && body[0] != '\\' && Inside(body[1..]))
    || (|body| > 1 && body[0] == '\\' && body[1] != '\n' && Inside(body[2..]))
  }

  /** A string comes out as it is. */
  lemma {:induction false} StringVerbatim(lex: Lexicon, body: string, after: string, owed: nat, open: bool)
    requires Inside(body)
    ensures InString(lex, body + ("\"" + after), owed, open)
         == Parts(body + "\"") + Glyphs(lex, after, owed, false, open)
    decreases |body|
  {
    hide Glyphs;
    var s, g := body + ("\"" + after), Glyphs(lex, after, owed, false, open);
    if body == "" {
      assert s[1..] == after && "" + "\"" == "\"";
    } else if body[0] == '\\' {
      StringVerbatim(lex, body[2..], after, owed, open);
      assert s[1..][1..] == body[2..] + ("\"" + after);
      assert s[1..][0] == body[1];
      assert Parts(body + "\"") == Parts("\\") + (Parts([body[1]]) + Parts(body[2..] + "\""));
      assert Parts("\\") + (Parts([body[1]]) + (Parts(body[2..] + "\"") + g)) == Parts(body + "\"") + g;
    } else {
      StringVerbatim(lex, body[1..], after, owed, open);
      assert s[1..] == body[1..] + ("\"" + after);
      assert Parts(body + "\"") == Parts([body[0]]) + Parts(body[1..] + "\"");
      assert Parts([body[0]]) + (Parts(body[1..] + "\"") + g) == Parts(body + "\"") + g;
    }
  }

  /** But a backslash at the end of a line becomes two backslashes and the letter n, which stands for no
      newline. */
  lemma EscapedNewline(lex: Lexicon, after: string, owed: nat, open: bool)
    ensures InString(lex, "\\\n" + after, owed, open) == Parts("\\\\n") + InString(lex, after, owed + 1, open)
  {
    var s, g := "\\\n" + after, InString(lex, after, owed + 1, open);
    assert s[1..] == "\n" + after && ("\n" + after)[1..] == after;
    assert Parts("\\\\n") == Parts("\\") + Parts("\\n");
    assert Parts("\\") + (Parts("\\n") + g) == Parts("\\\\n") + g;
  }

  /** The tables of the assembler for Intel processors. */
  function Intel(): Lexicon {
    Lexicon({'#'}, {'#'}, set c: char | c in "$._" || 'A' <= c <= 'Z' || 'a' <= c <= 'z' || '0' <= c <= '9')
  }

  lemma IntelTabled()
    ensures Tabled(Intel())
  {
  }

  // ---------------------------------------------------------------------
  // An example
  // ---------------------------------------------------------------------

  const EXAMPLE := "a/**/ b#c\n"

  function ExampleGlyphs(): seq<Glyph> {
    [Glyph('a', false, Ordinary), Glyph('b', true, Ordinary), Glyph('\n', false, LineEnd)]
  }

  lemma ExampleComment(lex: Lexicon)
    requires '#' in lex.comment
    ensures Glyphs(lex, "#c\n", 0, false, false) == [Glyph('\n', false, LineEnd)]
  {
    assert "#c\n"[1..] == "c\n" && "c\n"[1..] == "\n";
    assert LineRest("c\n") == LineRest("\n") == "\n";
    assert Tail("\n") == "";
    assert Glyphs(lex, "", 0, false, true) == [];
  }

  lemma ExampleSecond(lex: Lexicon)
    requires Tabled(lex) && '#' in lex.comment && 'b' in lex.symbol
    ensures Glyphs(lex, "b#c\n", 0, true, false) == [Glyph('b', true, Ordinary), Glyph('\n', false, LineEnd)]
  {
    assert "b#c\n"[1..] == "#c\n";
    ExampleComment(lex);
  }

  lemma ExampleSkipped(lex: Lexicon)
    requires Tabled(lex)
    ensures Glyphs(lex, "/**/ b#c\n", 0, false, false) == Glyphs(lex, "b#c\n", 0, true, false)
  {
    var t := "**/ b#c\n";
    assert "/**/ b#c\n"[1..] == t && t[1..] == "*/ b#c\n";
    assert t[1..][2..] == " b#c\n";
    assert CommentEnd(t[1..]) == " b#c\n" && CommentLines(t[1..]) == 0;
    assert " b#c\n"[1..] == "b#c\n";
    assert SkipBlanks(" b#c\n") == SkipBlanks("b#c\n") == "b#c\n";
  }

  lemma ExampleReads(lex: Lexicon)
    requires Tabled(lex) && '#' in lex.comment && 'a' in lex.symbol && 'b' in lex.symbol
    ensures Glyphs(lex, EXAMPLE, 0, false, true) == ExampleGlyphs() && NoDirective(ExampleGlyphs())
  {
    assert EXAMPLE[1..] == "/**/ b#c\n";
    ExampleSkipped(lex);
    ExampleSecond(lex);
  }

  lemma ExampleShown(lex: Lexicon, b: seq<bool>)
    requires |b| == 3 && WellSpaced(lex, ExampleGlyphs(), b)
    requires 'a' in lex.symbol && 'b' in lex.symbol
    ensures Spread(ExampleGlyphs(), b) == "a b\n"
  {
    var g := ExampleGlyphs();
    SpacedAt(lex, g, b, 0);
    SpacedAt(lex, g, b, 1);
    SpacedAt(lex, g, b, 2);
    hide WellSpaced, Spread;
    assert g[..0] == [] && b[..0] == [] && g[..1] == [g[0]] && b[..1] == [b[0]];
    assert TallyOf(lex, [], []) == START;
    assert !b[0];
    TallyOne(lex, g[0]);
    assert b[1] && !b[2];
    assert b == [false, true, false];
    ExampleSpread();
  }

  lemma TallyOne(lex: Lexicon, g: Glyph)
    ensures TallyOf(lex, [g], [false]) == Late(lex, Early(START, g.gap, false), g, false)
  {
    assert [g][..0] == [] && [false][..0] == [];
  }

  lemma ExampleSpread()
    ensures Spread(ExampleGlyphs(), [false, true, false]) == "a b\n"
  {
    var g, b := ExampleGlyphs(), [false, true, false];
    assert g[..2] == [g[0], g[1]] && b[..2] == [false, true];
    assert [g[0], g[1]][..1] == [g[0]] && [false, true][..1] == [false];
    assert [g[0]][..0] == [] && [false][..0] == [];
    assert Spread([g[0]], [false]) == "a";
    assert Spread([g[0], g[1]], [false, true]) == "a b";
  }
}
