/** One step of the scrubber as a function of what it remembers. */
module ScrubSteps {
  import opened Characters
  import opened Wrappers
  import opened Numerals

  /** How many newlines there are. */
  function Newlines(s: string): nat {
    if s == "" then 0 else (if s[0] == '\n' then 1 else 0) + Newlines(s[1..])
  }

  predicate IsWhitespace(c: char) {
    c == ' ' || c == '\t' || c == '\r'
  }

  predicate IsLineSeparator(c: char) {
    c == '\n' || c == ':' || c == ';'
  }

  predicate IsMark(c: char) {
    c == '"' || c == '\'' || c == ':' || c == '\n' || c == ';'
  }

  function Head(s: string): Option<char> {
    if s == "" then None else Some(s[0])
  }

  function Tail(s: string): string {
    if s == "" then "" else s[1..]
  }

  // ---------------------------------------------------------------------
  // Text that is gone over
  // ---------------------------------------------------------------------

  function SkipBlanks(s: string): (t: string)
    ensures |t| <= |s| && (t != "" ==> !IsWhitespace(t[0]))
  {
    if s != "" && IsWhitespace(s[0]) then SkipBlanks(s[1..]) else s
  }

  /** From the end of the line on. */
  function LineRest(s: string): (t: string)
    ensures |t| <= |s| && (t != "" ==> t[0] == '\n')
  {
    if s == "" || s[0] == '\n' then s else LineRest(s[1..])
  }

  /** Behind the end of the comment that s begins in. */
  function CommentEnd(s: string): (t: string)
    ensures |t| <= |s|
  {
    if |s| < 2 then "" else if s[0] == '*' && s[1] == '/' then s[2..] else CommentEnd(s[1..])
  }

  /** How many newlines stand in that comment. */
  function CommentLines(s: string): nat {
    if s == "" || (|s| > 1 && s[0] == '*' && s[1] == '/') then 0
    else (if s[0] == '\n' then 1 else 0) + CommentLines(s[1..])
  }

  lemma {:induction false} CommentLinesCount(s: string)
    ensures Newlines(s) == CommentLines(s) + Newlines(CommentEnd(s))
  {
    if |s| > 1 {
      if s[0] == '*' && s[1] == '/' {
        assert s[1..][1..] == s[2..];
      } else {
        CommentLinesCount(s[1..]);
      }
    } else if |s| == 1 {
      assert s[1..] == "";
    }
  }

  // ---------------------------------------------------------------------
  // What the scrubber remembers
  // ---------------------------------------------------------------------

  /** The characters that start comments, that start comments at the start of a line, and that belong to
      symbols. */
  datatype Lexicon = Lexicon(comment: set<char>, lineComment: set<char>, symbol: set<char>)

  datatype View = View(rest: string, state: int, oldState: int, outString: string, owed: nat, substate: int)

  /** The character given out, and what is remembered then. */
  datatype Given = Given(c: Option<char>, v: View)

  /** One turn inside a step; when it is not done there is another one. */
  datatype Turn = Turn(done: bool, c: Option<char>, v: View)

  /** States outside of strings and directives. */
  predicate Plain(state: int) {
    0 <= state <= 3 || state == 9 || state == 10
  }

  /** What a line directive of the preprocessor starts with. */
  const LINE := ".line "

  function LineComment(v: View): Given {
    var t := SkipBlanks(v.rest);
    if t == "" then Given(Some('\n'), v.(rest := ""))
    else if IsDigit(t[0]) then Given(Some('.'), v.(rest := t, oldState := 4, state := -1, outString := LINE[1..]))
    else RestOfLine(v)
  }

  function RestOfLine(v: View): Given {
    Given(Some('\n'), v.(rest := Tail(LineRest(v.rest)), state := 0, substate := 0))
  }

  function Misc(lex: Lexicon, first: char, v: View): Given {
    if first in lex.symbol && v.state == 10 then Given(Some(' '), v.(rest := [first] + v.rest, state := 3))
    else
      var state := if first in lex.symbol then (if v.state == 3 then 9 else v.state)
                   else if v.state == 9 || v.state == 10 then 3 else v.state;
      if state == 0 && first in lex.lineComment then LineComment(v.(state := state))
      else if first in lex.comment then RestOfLine(v.(state := state))
      else Given(Some(first), v.(state := if state == 0 || state == 1 then 2 else state))
  }

  function CharacterConstant(v: View): Given {
    var code := if v.rest == "" then 0 else v.rest[0] as int % 0x100;
    Given(Some('('), v.(rest := Tail(v.rest), oldState := v.state, state := -1, outString := Digits(code, 10) + ")"))
  }

  /** Whether a blank in front of this is dropped in any case. */
  predicate Drops(lex: Lexicon, state: int, c: char) {
    c in lex.comment || (state == 0 && c in lex.lineComment) || c == '/' || IsLineSeparator(c)
  }

  function Blank(v: View): Turn {
    if v.state == 2 && v.substate == 0 then Turn(true, Some(' '), v.(substate := 1))
    else if v.state == 2 then Turn(true, Some(' '), v.(state := 3, substate := 0))
    else if v.state == 0 then Turn(true, Some(' '), v.(state := 1))
    else Turn(false, None, v.(state := if v.state == 9 then 10 else v.state))
  }

  function Blanks(lex: Lexicon, v: View): Turn {
    var w := v.(rest := SkipBlanks(v.rest));
    if w.rest == "" then Turn(true, None, w)
    else if Drops(lex, v.state, w.rest[0]) then Turn(false, None, w)
    else Blank(w)
  }

  function Slash(lex: Lexicon, v: View): Turn {
    if Head(v.rest) == Some('*') then
      Turn(false, None, v.(rest := [' '] + CommentEnd(v.rest[1..]), owed := v.owed + CommentLines(v.rest[1..])))
    else if Head(v.rest) == Some('/') then Turn(false, None, v.(rest := LineRest(v.rest[1..])))
    else if '/' in lex.comment || (v.state == 0 && '/' in lex.lineComment) then
      var g := Misc(lex, '/', v);
      Turn(true, g.c, g.v)
    else Turn(true, Some('/'), v)
  }

  function Mark(first: char, v: View): Given {
    if first == '"' then Given(Some('"'), v.(oldState := v.state, state := 5))
    else if first == '\'' then CharacterConstant(v)
    else if first == '\n' && v.owed > 0 then
      Given(Some('\n'), v.(rest := ['\n'] + v.rest, owed := v.owed - 1, state := 0, substate := 0))
    else if first == ':' && v.state == 3 then Given(Some(':'), v)
    else Given(Some(first), v.(state := 0, substate := 0))
  }

  function Other(lex: Lexicon, first: char, v: View): Given {
    if IsMark(first) then Mark(first, v) else Misc(lex, first, v)
  }

  function OneTurn(lex: Lexicon, v: View): (t: Turn)
    requires Plain(v.state)
    ensures !t.done ==> Plain(t.v.state) && |t.v.rest| < |v.rest|
  {
    if v.rest == "" then Turn(true, None, v)
    else
      var first, w := v.rest[0], v.(rest := v.rest[1..]);
      if first == ' ' || first == '\t' then Blanks(lex, w)
      else if first == '/' then Slash(lex, w)
      else
        var g := Other(lex, first, w);
        Turn(true, g.c, g.v)
  }

  function Flush(lex: Lexicon, v: View): Given
    requires Plain(v.state)
    decreases |v.rest|
  {
    var t := OneTurn(lex, v);
    if t.done then Given(t.c, t.v) else Flush(lex, t.v)
  }

  function FromOutString(v: View): Given
    requires v.outString != ""
  {
    var w := v.(outString := v.outString[1..]);
    Given(Some(v.outString[0]), if w.outString == "" then w.(state := v.oldState, oldState := 3) else w)
  }

  function StringChar(v: View): Given {
    if v.rest == "" then Given(Some('"'), v.(rest := "\n", state := v.oldState))
    else
      Given(Some(v.rest[0]),
            v.(rest := v.rest[1..],
               state := if v.rest[0] == '"' then v.oldState else if v.rest[0] == '\\' then 6 else 5))
  }

  function Escape(v: View): Given {
    if v.rest == "" then Given(Some('"'), v.(state := 5))
    else if v.rest[0] == '\n' then Given(Some('\\'), v.(rest := ['n'] + v.rest[1..], owed := v.owed + 1, state := 5))
    else Given(Some(v.rest[0]), v.(rest := v.rest[1..], state := 5))
  }

  /** Outside of directives. */
  predicate Common(v: View) {
    Plain(v.state) || v.state == 5 || v.state == 6 || (v.state == -1 && v.outString != "")
  }

  function Step(lex: Lexicon, v: View): Given
    requires Common(v)
  {
    if v.state == 5 then StringChar(v) else if v.state == 6 then Escape(v)
    else if v.state == -1 then FromOutString(v) else Flush(lex, v)
  }
}
