/** The scrubber, which takes comments and spare blanks out of the input without losing count of its
    lines. */
module Scrubber {
  import opened Characters
  import opened Wrappers
  import opened Numerals
  import opened ScrubSteps
  import opened ScrubTexts

  lemma {:induction false} NewlinesConcat(a: string, b: string)
    ensures Newlines(a + b) == Newlines(a) + Newlines(b)
  {
    if a == "" {
      assert a + b == b;
    } else {
      assert (a + b)[1..] == a[1..] + b;
      NewlinesConcat(a[1..], b);
    }
  }

  lemma NewlinesPush(c: char, s: string)
    ensures Newlines([c] + s) == (if c == '\n' then 1 else 0) + Newlines(s)
  {
    assert ([c] + s)[1..] == s;
  }

  lemma NewlinesAppend(s: string, c: char)
    ensures Newlines(s + [c]) == Newlines(s) + Counted(Some(c))
  {
    NewlinesConcat(s, [c]);
  }

  lemma NewlinesNone()
    ensures Newlines("") == 0
  {
  }

  function Counted(c: Option<char>): nat {
    if c == Some('\n') then 1 else 0
  }

  /** What puts the count of lines out: a newline taken for a character constant is lost, and one is
      made up where the input ends in a string or in a comment. */
  datatype Upset = Undisturbed | QuotedNewline | EndInString | EndInComment

  function Drift(u: Upset): int {
    match u
    case Undisturbed => 0
    case QuotedNewline => -1
    case EndInString => 1
    case EndInComment => 1
  }

  // ---------------------------------------------------------------------
  // What one step takes from the input
  // ---------------------------------------------------------------------

  predicate IsSuffix(s: string, t: string) {
    |s| <= |t| && t[|t| - |s|..] == s
  }

  /** The character taken last, when `after` is left of `before`. */
  predicate TookLast(before: string, after: string, c: char) {
    |after| < |before| && IsSuffix(after, before) && before[|before| - |after| - 1] == c
  }

  /** The two characters taken last were a quote and a newline. */
  predicate TookQuotedNewline(before: string, after: string) {
    |after| + 2 <= |before| && TookLast(before, after, '\n') && before[|before| - |after| - 2] == '\''
  }

  /** Input whose last line is not ended. */
  predicate Unfinished(s: string) {
    s != "" && s[|s| - 1] != '\n'
  }

  predicate NoQuotedNewline(s: string) {
    forall i :: 0 <= i < |s| - 1 ==> s[i] == '\'' ==> s[i + 1] != '\n'
  }

  /** What a step gives out and takes says exactly how it put the count out: a newline is made up where
      one is given out at the end of a line that is not ended, and one is lost where an opening
      parenthesis is given out for a quote and a newline. */
  predicate Told(before: string, after: string, c: Option<char>, upset: Upset) {
    && (upset == EndInComment <==> c == Some('\n') && after == "" && Unfinished(before))
    && (upset == QuotedNewline <==> c == Some('(') && TookQuotedNewline(before, after))
  }

  /** The same where no quote can be. */
  predicate Commented(before: string, after: string, c: Option<char>, upset: Upset) {
    && c != Some('(') && (upset == Undisturbed || upset == EndInComment)
    && (upset == EndInComment <==> c == Some('\n') && after == "" && Unfinished(before))
  }

  lemma SuffixTrans(a: string, b: string, c: string)
    requires IsSuffix(a, b) && IsSuffix(b, c)
    ensures IsSuffix(a, c) && |a| <= |b| <= |c|
    ensures b != "" ==> (Unfinished(b) <==> Unfinished(c))
  {
    assert c[|c| - |a|..] == c[|c| - |b|..][|b| - |a|..];
  }

  lemma TookTrans(a: string, b: string, c: string, x: Option<char>)
    requires x.Some? ==> TookLast(b, a, x.value)
    requires IsSuffix(b, c)
    ensures x.Some? ==> TookLast(c, a, x.value) && IsSuffix(a, c) && |a| < |b| <= |c|
  {
    if x.Some? {
      SuffixTrans(a, b, c);
    }
  }

  lemma SuffixSelf(s: string)
    ensures IsSuffix(s, s)
  {
  }

  lemma EmptySuffix(s: string)
    ensures IsSuffix("", s)
  {
  }

  lemma SuffixTail(s: string)
    requires s != ""
    ensures IsSuffix(s[1..], s) && TookLast(s, s[1..], s[0])
  {
  }

  lemma TookUnread(before: string, after: string, c: char)
    requires TookLast(before, after, c)
    ensures IsSuffix([c] + after, before) && c in before
  {
    assert before[|before| - |after| - 1..] == [c] + before[|before| - |after|..];
  }

  lemma SuffixNoQuoted(s: string, t: string)
    requires IsSuffix(s, t) && NoQuotedNewline(t)
    ensures NoQuotedNewline(s) && !TookQuotedNewline(t, s)
  {
    forall i | 0 <= i < |s| - 1 && s[i] == '\'' ensures s[i + 1] != '\n' {
      assert s[i] == t[|t| - |s| + i] && s[i + 1] == t[|t| - |s| + i + 1];
    }
  }

  lemma HeadAndTail(s: string)
    ensures if s == "" then Head(s) == None && Tail(s) == ""
            else Head(s) == Some(s[0]) && Tail(s) == s[1..] && [s[0]] + s[1..] == s
  {
  }

  lemma PutBack(s: string, c: char)
    requires Head(s) == Some(c)
    ensures [c] + Tail(s) == s
  {
  }

  /** What is left while characters are flushed: a blank may stand in front for a comment. */
  predicate Flushed(before: string, after: string) {
    IsSuffix(after, before) || (after != "" && after[0] == ' ' && IsSuffix(after[1..], before))
  }

  lemma FlushedSelf(s: string)
    ensures Flushed(s, s)
  {
  }

  lemma BlankInFront(before: string, after: string)
    requires IsSuffix(after, before)
    ensures Flushed(before, [' '] + after) && |after| <= |before|
  {
    assert ([' '] + after)[1..] == after;
  }

  lemma FlushedTrans(before: string, inside: string, after: string)
    requires Flushed(inside, after) && IsSuffix(inside, before)
    ensures Flushed(before, after)
  {
    if IsSuffix(after, inside) {
      SuffixTrans(after, inside, before);
    } else {
      SuffixTrans(after[1..], inside, before);
    }
  }

  lemma SuffixFlushed(before: string, after: string)
    requires IsSuffix(after, before)
    ensures Flushed(before, after) && |after| <= |before|
  {
  }

  lemma SlashSuffix(s: string)
    ensures IsSuffix(s, ['/'] + s)
  {
  }

  lemma FlushedBlank(before: string, whole: string, behind: string, after: string)
    requires Flushed(before, whole) && whole != "" && behind == whole[1..] && IsSuffix(after, behind)
    ensures IsSuffix(after, before) && Flushed(before, after) && |after| < |whole|
  {
    FlushedTail(before, whole);
    SuffixTrans(after, behind, before);
  }

  lemma FlushedTail(before: string, whole: string)
    requires Flushed(before, whole) && whole != ""
    ensures IsSuffix(whole[1..], before) && (whole[0] != ' ' ==> IsSuffix(whole, before) && TookLast(before, whole[1..], whole[0]))
  {
    if IsSuffix(whole, before) {
      SuffixTail(whole);
      SuffixTrans(whole[1..], whole, before);
    }
  }

  /** Reading from behind the first character of `whole` to its end or over a newline. */
  lemma NewlineLast(whole: string, start: string, after: string, c: Option<char>)
    requires whole != "" && whole[1..] == start && whole[0] != '\n' && IsSuffix(after, start)
    requires if c.Some? then TookLast(start, after, c.value) else after == ""
    ensures IsSuffix(after, whole)
    ensures c == Some('\n') && after == "" ==> !Unfinished(whole)
    ensures '\n' !in start ==> Unfinished(whole)
  {
    SuffixTail(whole);
    SuffixTrans(after, start, whole);
  }

  /** What is told of the rest of the input is told of all of it. */
  lemma ToldBefore(before: string, whole: string, after: string, c: Option<char>, upset: Upset)
    requires whole != "" && IsSuffix(whole, before) && IsSuffix(after, whole) && Told(whole, after, c, upset)
    requires c == Some('(') ==> |after| + 2 <= |whole| || (|after| + 1 == |whole| && whole[0] != '\n')
    ensures IsSuffix(after, before) && Told(before, after, c, upset)
  {
    SuffixTrans(after, whole, before);
    assert |after| + 2 <= |whole| ==> whole[|whole| - |after| - 2] == before[|before| - |after| - 2];
    assert |after| + 1 <= |whole| ==> whole[|whole| - |after| - 1] == before[|before| - |after| - 1];
  }

  /** What a step leaves of the input: less of it, but for the newline made up at the end of a string
      and the letter that stands for an escaped newline. */
  predicate Moved(before: string, after: string, state: int, next: int) {
    && (if state == 5 && before == "" then after == "\n"
        else if state == 6 && before != "" && before[0] == '\n' then after == ['n'] + before[1..] && next == 5
        else IsSuffix(after, before))
    && (state == 5 && before != "" ==> after == before[1..])
    && (next == 8 ==> state == 5 && (before == "" || before[0] == '"'))
  }

  lemma MovedSuffix(before: string, after: string, state: int, next: int)
    requires IsSuffix(after, before) && state != 5 && state != 6 && next != 8
    ensures Moved(before, after, state, next)
  {
  }

  /** A step that gives out what it took last. */
  lemma TookTold(before: string, after: string, c: Option<char>, state: int, next: int)
    requires c.Some? && c.value in {'\n', '('} ==> TookLast(before, after, c.value)
    requires IsSuffix(after, before) && state != 5 && state != 6 && next != 8
    ensures Told(before, after, c, Undisturbed) && Moved(before, after, state, next)
  {
  }

  lemma StringTold(before: string, after: string, c: Option<char>, next: int)
    requires after == if before == "" then "\n" else before[1..]
    requires c == Some(if before == "" then '"' else before[0]) && (next == 8 ==> c == Some('"'))
    ensures Told(before, after, c, if before == "" then EndInString else Undisturbed) && Moved(before, after, 5, next)
  {
  }

  lemma EscapeTold(before: string, after: string, c: Option<char>)
    requires if before != "" && before[0] == '\n' then after == ['n'] + before[1..] && c == Some('\\')
             else after == Tail(before) && c == Some(if before == "" then '"' else before[0])
    ensures Told(before, after, c, Undisturbed) && Moved(before, after, 6, 5)
  {
  }

  lemma NoneLeft(before: string, after: string, c: char)
    requires IsSuffix(after, before) && c !in before
    ensures c !in after
  {
    forall i | 0 <= i < |after| ensures after[i] != c {
      assert after[i] == before[|before| - |after| + i];
    }
  }

  /** Nothing but newlines and letters is put in front of the input. */
  lemma NoneNew(before: string, after: string, state: int, next: int, c: char)
    requires Moved(before, after, state, next) && c !in before && c != 'n' && c != '\n'
    ensures c !in after
  {
    hide IsSuffix;
    if state == 6 && before != "" && before[0] == '\n' {
      SuffixTail(before);
      NoneLeft(before, before[1..], c);
    } else if !(state == 5 && before == "") {
      NoneLeft(before, after, c);
    }
  }

  /** Input that puts no count out but where it ends in a string: all its lines end, and none of them
      in a quote. */
  predicate Regular(s: string, state: int) {
    && NoQuotedNewline(s)
    && (Unfinished(s) ==> state == 5 && s == "n")
    && (state == 8 ==> s != "")
  }

  lemma RegularStays(before: string, after: string, state: int, next: int)
    requires Regular(before, state) && Moved(before, after, state, next)
    ensures Regular(after, next)
  {
    if state == 5 && before == "" {
    } else if state == 6 && before != "" && before[0] == '\n' {
      SuffixTail(before);
      SuffixNoQuoted(before[1..], before);
    } else {
      SuffixNoQuoted(after, before);
      assert after != "" ==> after[|after| - 1] == before[|before| - 1];
    }
  }

  /** A step on such input can only be upset by the end of a string. */
  lemma RegularTold(before: string, after: string, state: int, next: int, c: Option<char>, upset: Upset)
    requires Regular(before, state) && Moved(before, after, state, next) && Told(before, after, c, upset)
    requires state == 5 && before != "" ==> c == Some(before[0])
    ensures upset == Undisturbed || upset == EndInString
  {
    if IsSuffix(after, before) {
      SuffixNoQuoted(after, before);
    }
  }

  /** Nothing is left, or only the newline that is made up at the end. */
  predicate AtEnd(s: string) {
    s == "" || s == "\n"
  }

  lemma EndStays(before: string, after: string, state: int, next: int)
    requires Moved(before, after, state, next)
    ensures state == 5 && before == "" ==> AtEnd(after)
    ensures state != 5 && state != 6 && AtEnd(before) ==> AtEnd(after)
  {
  }

  /** A quote comes next, outside of strings and comments. */
  predicate QuoteNext(state: int, s: string) {
    Plain(state) && s != "" && s[0] == '\''
  }

  /** The state and what is left of the input, between two steps. */
  datatype Moment = Moment(state: int, rest: string)

  /** In a string at the end of the input. */
  predicate Ended(m: Moment) {
    m.state == 5 && m.rest == ""
  }

  /** Some step was made from there. */
  predicate SomeEnded(trace: seq<Moment>) {
    exists i :: 0 <= i < |trace| - 1 && Ended(trace[i])
  }

  /** A run from one moment to another, in which every step leaves of the input what steps leave. */
  predicate Traces(trace: seq<Moment>, first: Moment, last: Moment) {
    && trace != [] && trace[0] == first && trace[|trace| - 1] == last
    && forall i :: 0 <= i < |trace| - 1 ==> Moved(trace[i].rest, trace[i + 1].rest, trace[i].state, trace[i + 1].state)
  }

  lemma TraceMore(trace: seq<Moment>, m: Moment)
    requires trace != []
    ensures SomeEnded(trace + [m]) <==> SomeEnded(trace) || Ended(trace[|trace| - 1])
  {
    var longer := trace + [m];
    assert longer[|trace| - 1] == trace[|trace| - 1];
    if i :| 0 <= i < |trace| - 1 && Ended(trace[i]) {
      assert Ended(longer[i]);
    }
  }

  /** States outside of strings, and not on the way to one. */
  predicate Outside(state: int, oldState: int) {
    state != 5 && state != 6 && state != 7 && (state < 0 ==> oldState != 7)
  }

  /** A step that gives out the character it takes, or another that is neither a newline nor a quote. */
  lemma ToldPlain(before: string, whole: string, c: Option<char>)
    requires Flushed(before, whole) && whole != "" && whole[0] != ' '
    requires c == Some(whole[0]) && whole[0] != '\n'
    ensures IsSuffix(whole[1..], before) && Told(before, whole[1..], c, Undisturbed) && whole[0] in before
  {
    FlushedTail(before, whole);
  }

  lemma ToldBlank(before: string, after: string, c: Option<char>)
    requires c == None || c == Some(' ')
    ensures Told(before, after, c, Undisturbed)
  {
  }

  lemma ToldNewline(before: string, whole: string, after: string)
    requires Flushed(before, whole) && whole != "" && whole[0] == '\n' && (after == whole || after == whole[1..])
    ensures IsSuffix(after, before) && Told(before, after, Some('\n'), Undisturbed)
  {
    FlushedTail(before, whole);
  }

  lemma ToldQuote(before: string, whole: string, after: string, upset: Upset)
    requires Flushed(before, whole) && whole != "" && whole[0] == '\'' && after == Tail(whole[1..])
    requires upset == if whole[1..] != "" && whole[1] == '\n' then QuotedNewline else Undisturbed
    ensures IsSuffix(after, before) && Told(before, after, Some('('), upset)
  {
    FlushedTail(before, whole);
    if whole[1..] != "" {
      SuffixTail(whole[1..]);
      SuffixTrans(after, whole[1..], before);
      assert before[|before| - |whole|..] == whole;
      assert before[|before| - |after| - 2] == whole[0] && before[|before| - |after| - 1] == whole[1];
    }
  }

  lemma ToldMisc(before: string, whole: string, after: string, c: Option<char>, upset: Upset)
    requires Flushed(before, whole) && whole != "" && whole[0] != ' ' && whole[0] != '\n' && IsSuffix(after, whole)
    requires if c == Some('(') then after == whole[1..] && whole[0] == '(' && upset == Undisturbed
             else Commented(whole, after, c, upset)
    ensures IsSuffix(after, before) && Told(before, after, c, upset) && upset != EndInString
  {
    FlushedTail(before, whole);
    if c == Some('(') {
      ToldPlain(before, whole, c);
    } else {
      ToldBefore(before, whole, after, c, upset);
    }
  }

  /** Text that can be held back without being taken for anything else. */
  predicate Held(s: string) {
    s != "" && '\n' !in s && '(' !in s
  }

  lemma LineHeld()
    ensures LINE != "" && LINE[0] == '.' && Held(LINE[1..])
  {
    assert LINE[1..] == "line ";
  }

  /** The second part of what a line directive of the preprocessor becomes. */
  function FileText(): (s: string)
    ensures s != "" && s[0] == ';' && Held(s[1..])
  {
    assert "; .file "[1..] == " .file ";
    "; .file "
  }

  /** A number in parentheses. */
  function Quoted(n: nat): (s: string)
    ensures s != "" && s[0] == '(' && Held(s[1..])
  {
    var s := "(" + (Digits(n, 10) + ")");
    assert s[1..] == Digits(n, 10) + ")";
    s
  }

  class Scrub {
    /** The characters that start comments, that start comments at the start of a line, and that
        belong to symbols. */
    const comment: set<char>
    const lineComment: set<char>
    const symbol: set<char>
    /** The input that is left, with what was put back. */
    var rest: string
    var state: int
    var oldState: int
    var outString: string
    var addNewlines: nat
    var substate: int
    /** The lines of the whole input, those given out so far, and what was lost or made up. */
    ghost const total: nat
    ghost var returned: nat
    ghost var drift: int

    constructor (comment: set<char>, lineComment: set<char>, symbol: set<char>, input: string)
      requires '\n' !in comment && '\n' !in lineComment && '\n' !in symbol
      ensures Valid() && Accounted() && Lex() == Lexicon(comment, lineComment, symbol)
      ensures Snapshot() == View(input, 0, 0, "", 0, 0)
      ensures total == Newlines(input) && returned == 0 && drift == 0
    {
      this.comment, this.lineComment, this.symbol := comment, lineComment, symbol;
      rest, state, oldState, outString, addNewlines, substate := input, 0, 0, "", 0, 0;
      total, returned, drift := Newlines(input), 0, 0;
    }

    predicate Valid()
      reads this
    {
      && '\n' !in comment && '\n' !in lineComment && '\n' !in symbol
      && -2 <= state <= 10 && 0 <= oldState <= 10
      && (state == -1 ==> Held(outString))
      && (state < 0 ==> oldState == 4 || oldState == 7 || Plain(oldState))
      && (state == 5 || state == 6 ==> oldState == 8 || Plain(oldState))
    }

    /** Lines read are lines given out and lines to be added, but for what was lost or made up. */
    ghost predicate Accounted()
      reads this
    {
      Lines() + returned == total + drift
    }

    /** No string is open, and there is none to come. */
    predicate Quiet()
      reads this
    {
      Outside(state, oldState) && '"' !in rest
    }

    /** The tables. */
    function Lex(): Lexicon {
      Lexicon(comment, lineComment, symbol)
    }

    function Snapshot(): View
      reads this
    {
      View(rest, state, oldState, outString, addNewlines, substate)
    }

    /** The lines that are still to come. */
    function Lines(): int
      reads this
    {
      Newlines(rest) + addNewlines
    }

    method Getc() returns (c: Option<char>)
      modifies this`rest
      ensures c == Head(old(rest)) && rest == Tail(old(rest))
      ensures Newlines(rest) + Counted(c) == Newlines(old(rest)) && IsSuffix(rest, old(rest))
      ensures if c.Some? then TookLast(old(rest), rest, c.value) && |rest| < |old(rest)| else old(rest) == "" == rest
    {
      if rest == "" {
        c := None;
      } else {
        c, rest := Some(rest[0]), rest[1..];
      }
    }

    method Ungetc(c: char)
      modifies this`rest
      ensures rest == [c] + old(rest) && Newlines(rest) == Newlines(old(rest)) + Counted(Some(c))
    {
      NewlinesPush(c, rest);
      rest := [c] + rest;
    }

    /** Reads up to the end of the line, which is counted if it is there. */
    method ReadLine() returns (c: Option<char>)
      modifies this`rest
      ensures c == None || c == Some('\n')
      ensures Newlines(rest) + Counted(c) == Newlines(old(rest)) && IsSuffix(rest, old(rest))
      ensures '\n' in old(rest) <==> c.Some?
      ensures if c.Some? then TookLast(old(rest), rest, '\n') else rest == ""
      ensures c == Head(LineRest(old(rest))) && rest == Tail(LineRest(old(rest)))
    {
      hide LineRest, Newlines, IsSuffix, TookLast, Head, Tail;
      ghost var before := rest;
      SuffixSelf(before);
      HeadAndTail(before);
      NoLine();
      c := Getc();
      while c.Some? && c.value != '\n'
        invariant Newlines(rest) + Counted(c) == Newlines(before) && IsSuffix(rest, before)
        invariant LineRest(before) == if c.Some? then LineRest([c.value] + rest) else ""
        invariant if c.Some? then TookLast(before, rest, c.value) else rest == ""
        invariant '\n' in before <==> c == Some('\n') || '\n' in rest
        decreases |rest|, if c.Some? then 1 else 0
      {
        ghost var mid := rest;
        LineFirst(c.value, mid);
        HeadAndTail(mid);
        c := Getc();
        SuffixTrans(rest, mid, before);
        TookTrans(rest, mid, before, c);
      }
      HeadAndTail(LineRest(before));
      if c.Some? {
        LineFirst(c.value, rest);
      }
    }

    lemma NoLine()
      ensures LineRest("") == ""
    {
    }

    lemma LineFirst(c: char, s: string)
      ensures LineRest([c] + s) == if c == '\n' then [c] + s else LineRest(s)
    {
      assert ([c] + s)[1..] == s;
    }

    /** Reads over blanks to the next other character. */
    method SkipWhite() returns (c: Option<char>)
      modifies this`rest
      ensures Newlines(rest) + Counted(c) == Newlines(old(rest)) && IsSuffix(rest, old(rest))
      ensures c.Some? ==> !IsWhitespace(c.value)
      ensures if c.Some? then TookLast(old(rest), rest, c.value) else rest == ""
      ensures '\n' in old(rest) <==> c == Some('\n') || '\n' in rest
      ensures c == Head(SkipBlanks(old(rest))) && rest == Tail(SkipBlanks(old(rest)))
    {
      hide SkipBlanks, Newlines, IsSuffix, TookLast, Head, Tail;
      ghost var before := rest;
      SuffixSelf(before);
      HeadAndTail(before);
      NoBlanks();
      c := Getc();
      while c.Some? && IsWhitespace(c.value)
        invariant Newlines(rest) + Counted(c) == Newlines(before) && IsSuffix(rest, before)
        invariant SkipBlanks(before) == if c.Some? then SkipBlanks([c.value] + rest) else ""
        invariant if c.Some? then TookLast(before, rest, c.value) else rest == ""
        invariant '\n' in before <==> c == Some('\n') || '\n' in rest
        decreases |rest|, if c.Some? then 1 else 0
      {
        ghost var mid := rest;
        BlankFirst(c.value, mid);
        HeadAndTail(mid);
        c := Getc();
        SuffixTrans(rest, mid, before);
        TookTrans(rest, mid, before, c);
      }
      HeadAndTail(SkipBlanks(before));
      if c.Some? {
        BlankFirst(c.value, rest);
      }
    }

    lemma NoBlanks()
      ensures SkipBlanks("") == ""
    {
    }

    lemma BlankFirst(c: char, s: string)
      ensures SkipBlanks([c] + s) == if IsWhitespace(c) then SkipBlanks(s) else [c] + s
    {
      assert ([c] + s)[1..] == s;
    }

    lemma NoCommentEnd()
      ensures CommentEnd("") == ""
    {
    }

    lemma CommentGoesOn(c: char, s: string)
      requires c != '*'
      ensures CommentEnd([c] + s) == CommentEnd(s)
    {
      assert ([c] + s)[1..] == s;
    }

    lemma CommentEndsHere(s: string)
      ensures CommentEnd(['*'] + s) == if s != "" && s[0] == '/' then s[1..] else CommentEnd(s)
    {
      assert (['*'] + s)[1..] == s;
      if s != "" && s[0] == '/' {
        assert (['*'] + s)[2..] == s[1..];
      }
    }

    /** Reads on to a star, and leaves the lines gone over to be added later. */
    method SkipToStar() returns (c: Option<char>)
      modifies this`rest, this`addNewlines
      ensures Lines() == old(Lines()) && IsSuffix(rest, old(rest))
      ensures if c.Some? then |rest| < |old(rest)| else rest == ""
      ensures CommentEnd(old(rest)) == if c.Some? then CommentEnd(['*'] + rest) else ""
    {
      hide Newlines, IsSuffix, TookLast, Head, Tail, CommentEnd;
      ghost var before := rest;
      SuffixSelf(before);
      HeadAndTail(before);
      NoCommentEnd();
      c := Getc();
      if c == Some('\n') {
        addNewlines := addNewlines + 1;
      }
      while c.Some? && c.value != '*'
        invariant Lines() == old(Lines()) && IsSuffix(rest, before)
        invariant CommentEnd(before) == if c.Some? then CommentEnd([c.value] + rest) else ""
        invariant if c.Some? then |rest| < |before| else rest == ""
        decreases |rest|, if c.Some? then 1 else 0
      {
        ghost var mid := rest;
        CommentGoesOn(c.value, mid);
        HeadAndTail(mid);
        c := Getc();
        SuffixTrans(rest, mid, before);
        if c == Some('\n') {
          addNewlines := addNewlines + 1;
        }
      }
    }

    /** Reads a comment to its end, and leaves its lines to be added later. */
    method BlockComment() returns (closed: bool)
      modifies this`rest, this`addNewlines
      ensures Lines() == old(Lines()) && IsSuffix(rest, old(rest)) && rest == CommentEnd(old(rest))
    {
      hide Newlines, IsSuffix, TookLast, Head, Tail, CommentEnd;
      SuffixSelf(rest);
      closed := false;
      while true
        invariant Lines() == old(Lines()) && IsSuffix(rest, old(rest)) && CommentEnd(rest) == CommentEnd(old(rest))
        decreases |rest|
      {
        ghost var before := rest;
        var c := SkipToStar();
        ghost var star := rest;
        SuffixTrans(star, before, old(rest));
        HeadAndTail(star);
        CommentEndsHere(star);
        c := Getc();
        SuffixTrans(rest, star, old(rest));
        if c.None? || c.value == '/' {
          closed := c.Some?;
          return;
        }
        PutBack(star, c.value);
        Ungetc(c.value);
      }
    }

    /** State -1: the next character of the output string. */
    method FromOutString() returns (c: Option<char>)
      requires Valid() && state == -1
      modifies this`state, this`oldState, this`outString
      ensures Valid() && Lines() + Counted(c) == old(Lines()) && c.Some? && c.value != '('
      ensures (state, oldState) == old((state, oldState)) || (state, oldState) == old((oldState, 3))
      ensures Given(c, Snapshot()) == ScrubSteps.FromOutString(old(Snapshot()))
    {
      c, outString := Some(outString[0]), outString[1..];
      if outString == "" {
        state, oldState := oldState, 3;
      }
    }

    /** Gives out the first character of a string, and keeps the others for later. */
    method Begin(s: string, next: int) returns (c: Option<char>)
      requires Valid() && s != "" && s[0] != '\n' && Held(s[1..]) && (next == 4 || next == 7 || Plain(next))
      modifies this`state, this`oldState, this`outString
      ensures Valid() && Lines() + Counted(c) == old(Lines()) && c == Some(s[0])
      ensures state == -1 && oldState == next && outString == s[1..]
    {
      oldState, state, c, outString := next, -1, Some(s[0]), s[1..];
    }

    /** Reads on to a star or to the end of the line. */
    method SkipToStarOrLine() returns (c: Option<char>)
      modifies this`rest
      ensures Newlines(rest) + Counted(c) == Newlines(old(rest)) && IsSuffix(rest, old(rest))
      ensures c.Some? ==> TookLast(old(rest), rest, c.value) && |rest| < |old(rest)|
      ensures c.Some? ==> c.value == '\n' || c.value == '*'
    {
      hide Newlines, IsSuffix, TookLast, Head, Tail;
      ghost var before := rest;
      SuffixSelf(before);
      c := Getc();
      while c.Some? && c.value != '\n' && c.value != '*'
        invariant Newlines(rest) + Counted(c) == Newlines(before) && IsSuffix(rest, before)
        invariant c.Some? ==> TookLast(before, rest, c.value) && |rest| < |before|
        decreases |rest|, if c.Some? then 1 else 0
      {
        ghost var mid := rest;
        c := Getc();
        SuffixTrans(rest, mid, before);
        TookTrans(rest, mid, before, c);
      }
    }

    /** State -2: the rest of a comment. */
    method RestOfComment() returns (c: Option<char>)
      requires Valid() && state == -2
      modifies this`rest, this`state
      ensures Valid() && Lines() + Counted(c) == old(Lines()) && IsSuffix(rest, old(rest))
      ensures c == None || c == Some(' ') || (c == Some('\n') && TookLast(old(rest), rest, '\n'))
      ensures state == -2 || state == oldState
    {
      hide Newlines, IsSuffix, TookLast, Held, Head, Tail;
      SuffixSelf(rest);
      while true
        invariant Valid() && Newlines(rest) == Newlines(old(rest)) && IsSuffix(rest, old(rest)) && state == -2
        decreases |rest|
      {
        ghost var before := rest;
        c := SkipToStarOrLine();
        ghost var star := rest;
        SuffixTrans(star, before, old(rest));
        TookTrans(star, before, old(rest), c);
        if c.None? || c.value == '\n' {
          return;
        }
        c := Getc();
        SuffixTrans(rest, star, old(rest));
        if c.None? || c.value == '/' {
          break;
        }
        PutBack(star, c.value);
        Ungetc(c.value);
      }
      state := oldState;
      c := Some(' ');
    }

    /** State 4: the digits of a line directive, and what is behind them. */
    method LineNumber() returns (c: Option<char>)
      requires Valid() && state == 4
      modifies this`rest, this`state, this`oldState, this`outString
      ensures Valid() && Lines() + Counted(c) == old(Lines()) && IsSuffix(rest, old(rest))
      ensures c != Some('(') && (c == Some('\n') ==> TookLast(old(rest), rest, '\n'))
      ensures state == 4 || state == 0 || (state == -1 && oldState == 7 && '"' in old(rest))
    {
      hide Newlines, IsSuffix, TookLast, Held, Head, Tail, FileText, SkipBlanks, LineRest;
      ghost var before := rest;
      c := Getc();
      if c.Some? && !IsDigit(c.value) {
        if IsWhitespace(c.value) {
          ghost var first := rest;
          c := SkipWhite();
          TookTrans(rest, first, before, c);
          SuffixTrans(rest, first, before);
        }
        if c == Some('"') {
          TookUnread(before, rest, '"');
          Ungetc('"');
          c := Begin(FileText(), 7);
        } else {
          if c.Some? && c.value != '\n' {
            ghost var second := rest;
            c := ReadLine();
            TookTrans(rest, second, before, c);
            SuffixTrans(rest, second, before);
          }
          state := 0;
        }
      }
    }

    /** State 5: a character of a string. */
    method StringChar() returns (c: Option<char>, ghost upset: Upset)
      requires Valid() && state == 5
      modifies this`rest, this`state
      ensures Valid() && Lines() + Counted(c) == old(Lines()) + Drift(upset)
      ensures upset == if old(rest) == "" then EndInString else Undisturbed
      ensures rest == if old(rest) == "" then "\n" else old(rest)[1..]
      ensures c == Some(if old(rest) == "" then '"' else old(rest)[0])
      ensures state == if c == Some('"') then oldState else if c == Some('\\') then 6 else 5
      ensures Given(c, Snapshot()) == ScrubSteps.StringChar(old(Snapshot()))
    {
      upset := Undisturbed;
      c := Getc();
      if c.None? {
        state := oldState;
        Ungetc('\n');
        c, upset := Some('"'), EndInString;
      } else if c.value == '"' {
        state := oldState;
      } else if c.value == '\\' {
        state := 6;
      }
    }

    /** State 6: the character behind a backslash; a newline there is added later. */
    method Escape() returns (c: Option<char>)
      requires Valid() && state == 6
      modifies this`rest, this`state, this`addNewlines
      ensures Valid() && Lines() + Counted(c) == old(Lines()) && state == 5
      ensures if old(rest) != "" && old(rest)[0] == '\n' then rest == ['n'] + old(rest)[1..] && c == Some('\\')
              else rest == Tail(old(rest)) && c == Some(if old(rest) == "" then '"' else old(rest)[0])
      ensures Given(c, Snapshot()) == ScrubSteps.Escape(old(Snapshot()))
    {
      hide Newlines, IsSuffix, TookLast, Held;
      state := 5;
      c := Getc();
      if c == Some('\n') {
        Ungetc('n');
        addNewlines := addNewlines + 1;
        c := Some('\\');
      } else if c.None? {
        c := Some('"');
      }
    }

    /** One or two tokens into a line a blank is kept. */
    method Blank() returns (keep: bool)
      requires Valid() && Plain(state)
      modifies this`state, this`substate
      ensures Valid() && Plain(state)
      ensures Turn(keep, if keep then Some(' ') else None, Snapshot()) == ScrubSteps.Blank(old(Snapshot()))
    {
      keep := false;
      if state == 0 || state == 2 {
        if state == 2 {
          if substate == 0 {
            substate := 1;
            return true;
          }
          substate := 0;
        }
        state := state + 1;
        keep := true;
      } else if state == 9 {
        state := 10;
      }
    }

    /** The end of the line is behind its blanks. */
    lemma {:induction false} LineBehind(s: string)
      ensures LineRest(SkipBlanks(s)) == LineRest(s)
    {
      if s != "" && IsWhitespace(s[0]) {
        LineBehind(s[1..]);
      }
    }

    /** What is left of such a line, by what is behind its blanks. */
    lemma CommentCases(v: View)
      ensures var t := SkipBlanks(v.rest);
        ScrubSteps.LineComment(v) ==
          if t != "" && IsDigit(t[0]) then
            Given(Some('.'), v.(rest := [t[0]] + Tail(t), oldState := 4, state := -1, outString := LINE[1..]))
          else if t == "" then Given(Some('\n'), v.(rest := ""))
          else if t[0] == '\n' then Given(Some('\n'), v.(rest := Tail(t), state := 0, substate := 0))
          else Given(Some('\n'), v.(rest := Tail(LineRest(Tail(t))), state := 0, substate := 0))
    {
      LineBehind(v.rest);
    }

    /** A comment that takes a whole line: nothing is left of it unless a number follows. */
    method LineComment(first: char) returns (c: Option<char>, ghost upset: Upset)
      requires Valid() && Plain(state) && first != '\n'
      modifies this`rest, this`state, this`oldState, this`outString, this`substate
      ensures Valid() && Lines() + Counted(c) == old(Lines()) + Drift(upset)
      ensures IsSuffix(rest, [first] + old(rest)) && Commented([first] + old(rest), rest, c, upset)
      ensures Plain(state) || (state == -1 && oldState == 4)
      ensures Given(c, Snapshot()) == ScrubSteps.LineComment(old(Snapshot()))
    {
      hide Newlines, IsSuffix, Held, TookLast, Unfinished, SkipBlanks, LineRest, ScrubSteps.LineComment, Commented;
      LineHeld();
      ghost var start, whole := rest, [first] + rest;
      CommentCases(Snapshot());
      c := SkipWhite();
      upset := Undisturbed;
      if c.Some? && IsDigit(c.value) {
        DigitBehind(whole, start, rest, c.value);
        Ungetc(c.value);
        c := Begin(LINE, 4);
      } else if c.None? {
        CommentOver(whole, start, rest, c);
        c, upset := Some('\n'), EndInComment;
      } else {
        if c.value != '\n' {
          ghost var second := rest;
          c := ReadLine();
          LineTaken(start, second, rest, c);
        }
        CommentOver(whole, start, rest, c);
        upset := if c.None? then EndInComment else Undisturbed;
        state, substate := 0, 0;
        c := Some('\n');
      }
    }

    lemma DigitBehind(whole: string, start: string, after: string, c: char)
      requires whole != "" && whole[1..] == start && TookLast(start, after, c)
      ensures IsSuffix([c] + after, whole) && Commented(whole, [c] + after, Some('.'), Undisturbed)
    {
      TookUnread(start, after, c);
      SuffixTail(whole);
      SuffixTrans([c] + after, start, whole);
    }

    lemma LineTaken(start: string, second: string, after: string, c: Option<char>)
      requires IsSuffix(second, start) && IsSuffix(after, second)
      requires if c.Some? then TookLast(second, after, c.value) else after == ""
      ensures IsSuffix(after, start) && (if c.Some? then TookLast(start, after, c.value) else after == "")
    {
      SuffixTrans(after, second, start);
      TookTrans(after, second, start, c);
    }

    /** A comment that has been read to its newline, or to the end of the input. */
    lemma CommentOver(whole: string, start: string, after: string, c: Option<char>)
      requires whole != "" && whole[1..] == start && whole[0] != '\n' && IsSuffix(after, start)
      requires c == None || c == Some('\n')
      requires if c.Some? then TookLast(start, after, '\n') else after == "" && '\n' !in start
      ensures IsSuffix(after, whole)
      ensures Commented(whole, after, Some('\n'), if c.None? then EndInComment else Undisturbed)
    {
      NewlineLast(whole, start, after, c);
    }

    /** A comment to the end of the line. */
    method RestOfLine(first: char) returns (c: Option<char>, ghost upset: Upset)
      requires Valid() && Plain(state) && first != '\n'
      modifies this`rest, this`state, this`substate
      ensures Valid() && Lines() + Counted(c) == old(Lines()) + Drift(upset)
      ensures IsSuffix(rest, [first] + old(rest)) && Commented([first] + old(rest), rest, c, upset)
      ensures Plain(state)
      ensures Given(c, Snapshot()) == ScrubSteps.RestOfLine(old(Snapshot()))
    {
      hide Newlines, IsSuffix, Held, LineRest;
      ghost var start, whole := rest, [first] + rest;
      EmptySuffix(start);
      c := ReadLine();
      NewlineLast(whole, start, rest, c);
      upset := if c.None? then EndInComment else Undisturbed;
      state, substate := 0, 0;
      c := Some('\n');
    }

    /** Anything that has no case of its own. */
    method Misc(first: char) returns (c: Option<char>, ghost upset: Upset)
      requires Valid() && Plain(state) && first != '\n'
      modifies this`rest, this`state, this`oldState, this`outString, this`substate
      ensures Valid() && Lines() + Counted(c) == old(Lines()) + Drift(upset)
      ensures IsSuffix(rest, [first] + old(rest))
      ensures if c == Some('(') then first == '(' && rest == old(rest) && upset == Undisturbed
              else Commented([first] + old(rest), rest, c, upset)
      ensures Plain(state) || (state == -1 && oldState == 4)
      ensures Given(c, Snapshot()) == ScrubSteps.Misc(Lex(), first, old(Snapshot()))
    {
      hide Newlines, IsSuffix, Unfinished, Held, ScrubSteps.LineComment, ScrubSteps.RestOfLine;
      ghost var whole := [first] + rest;
      assert whole[1..] == rest;
      SuffixSelf(whole);
      SuffixTail(whole);
      upset := Undisturbed;
      if first in symbol {
        if state == 10 {
          Ungetc(first);
          state := 3;
          return Some(' '), upset;
        }
        if state == 3 {
          state := 9;
        }
      } else if state == 9 || state == 10 {
        state := 3;
      }
      if state == 0 && first in lineComment {
        c, upset := LineComment(first);
      } else if first in comment {
        c, upset := RestOfLine(first);
      } else {
        if state == 0 {
          state := 2;
        } else if state == 1 {
          state := 2;
        }
        c := Some(first);
      }
    }

    /** A quote and the character behind it, as a number. */
    method CharacterConstant() returns (c: Option<char>, ghost upset: Upset)
      requires Valid() && Plain(state)
      modifies this`rest, this`state, this`oldState, this`outString
      ensures Valid() && Lines() + Counted(c) == old(Lines()) + Drift(upset)
      ensures upset == if old(rest) != "" && old(rest)[0] == '\n' then QuotedNewline else Undisturbed
      ensures c == Some('(') && rest == Tail(old(rest))
      ensures state == -1 && Plain(oldState)
      ensures Given(c, Snapshot()) == ScrubSteps.CharacterConstant(old(Snapshot()))
    {
      hide Newlines, Digits;
      c := Getc();
      upset := if c == Some('\n') then QuotedNewline else Undisturbed;
      var value := if c.Some? then c.value as int % 0x100 else 0;
      c := Begin(Quoted(value), state);
    }

    /** Blanks: they are flushed, or one of them is given out. */
    method Blanks() returns (done: bool, c: Option<char>)
      requires Valid() && Plain(state)
      modifies this`rest, this`state, this`substate
      ensures Valid() && Plain(state) && Lines() + (if done then Counted(c) else 0) == old(Lines())
      ensures IsSuffix(rest, old(rest)) && (done ==> c == None || c == Some(' '))
      ensures Turn(done, if done then c else None, Snapshot()) == ScrubSteps.Blanks(Lex(), old(Snapshot()))
    {
      hide Newlines, IsSuffix, TookLast, Held, SkipBlanks, ScrubSteps.Blank;
      done := true;
      c := SkipWhite();
      if c.Some? {
        TookUnread(old(rest), rest, c.value);
        PutBack(SkipBlanks(old(rest)), c.value);
        Ungetc(c.value);
        done := false;
        if !(c.value in comment || (state == 0 && c.value in lineComment) || c.value == '/' || IsLineSeparator(c.value)) {
          done := Blank();
          c := Some(' ');
        }
      }
    }

    /** The rest of a comment behind its first star: a blank stands for it. */
    method StarComment()
      requires Valid() && Plain(state)
      modifies this`rest, this`addNewlines
      ensures Valid() && Lines() == old(Lines()) && Flushed(old(rest), rest) && |rest| <= |old(rest)| + 1
      ensures rest == [' '] + CommentEnd(old(rest)) && addNewlines == old(addNewlines) + CommentLines(old(rest))
    {
      hide Newlines, IsSuffix, Held, CommentEnd, CommentLines;
      ghost var start := rest;
      CommentLinesCount(start);
      var closed := BlockComment();
      BlankInFront(start, rest);
      Ungetc(' ');
    }

    /** The rest of a comment behind two slashes, but not the end of its line. */
    method SlashComment()
      requires Valid() && Plain(state)
      modifies this`rest
      ensures Valid() && Lines() == old(Lines()) && Flushed(old(rest), rest) && |rest| <= |old(rest)|
      ensures rest == LineRest(old(rest))
    {
      hide Newlines, IsSuffix, Held, LineRest;
      ghost var start := rest;
      EmptySuffix(start);
      var c := ReadLine();
      if c.Some? {
        TookUnread(start, rest, '\n');
        Ungetc('\n');
      }
      SuffixFlushed(start, rest);
    }

    /** A slash: a comment is flushed, or the slash is given out. */
    method Slash() returns (done: bool, c: Option<char>, ghost upset: Upset)
      requires Valid() && Plain(state)
      modifies this`rest, this`state, this`oldState, this`outString, this`addNewlines, this`substate
      ensures Valid() && Lines() + (if done then Counted(c) else 0) == old(Lines()) + Drift(upset)
      ensures !done ==> Plain(state) && upset == Undisturbed && Flushed(old(rest), rest) && |rest| <= |old(rest)|
      ensures done ==> IsSuffix(rest, ['/'] + old(rest)) && Commented(['/'] + old(rest), rest, c, upset)
      ensures Plain(state) || (state == -1 && oldState == 4)
      ensures Turn(done, if done then c else None, Snapshot()) == ScrubSteps.Slash(Lex(), old(Snapshot()))
    {
      hide Newlines, IsSuffix, TookLast, Unfinished, Held, Flushed, ScrubSteps.Misc, CommentEnd, LineRest, CommentLines;
      done, upset := true, Undisturbed;
      ghost var start := rest;
      c := Getc();
      ghost var inside := rest;
      if c == Some('*') {
        StarComment();
        FlushedTrans(start, inside, rest);
        done := false;
      } else if c == Some('/') {
        SlashComment();
        FlushedTrans(start, inside, rest);
        done := false;
      } else {
        if c.Some? {
          PutBack(start, c.value);
          Ungetc(c.value);
        }
        SlashSuffix(start);
        if '/' in comment || (state == 0 && '/' in lineComment) {
          c, upset := Misc('/');
        } else {
          c := Some('/');
        }
      }
    }

    /** A quotation mark, a quote, or the end of a line or of a statement. */
    method Mark(first: char, ghost before: string, ghost whole: string) returns (c: Option<char>, ghost upset: Upset)
      requires Valid() && Plain(state) && IsMark(first)
      requires whole != "" && whole[0] == first && rest == whole[1..] && Flushed(before, whole)
      modifies this`rest, this`state, this`oldState, this`outString, this`addNewlines, this`substate
      ensures Valid() && Lines() + Counted(c) == old(Lines()) + Counted(Some(first)) + Drift(upset)
      ensures IsSuffix(rest, before) && Told(before, rest, c, upset) && upset != EndInString
      ensures Plain(state) || (state == -1 && Plain(oldState)) || (state == 5 && '"' in before)
      ensures first == '\'' ==> c == Some('(') && rest == Tail(whole[1..])
      ensures Given(c, Snapshot()) == ScrubSteps.Mark(first, old(Snapshot()))
    {
      hide Newlines, IsSuffix, TookLast, Told, Flushed, Held, Tail, ScrubSteps.CharacterConstant;
      c, upset := Some(first), Undisturbed;
      if first == '"' {
        oldState, state := state, 5;
        ToldPlain(before, whole, c);
      } else if first == '\'' {
        c, upset := CharacterConstant();
        ToldQuote(before, whole, rest, upset);
      } else if first == '\n' {
        if addNewlines > 0 {
          addNewlines := addNewlines - 1;
          Ungetc('\n');
          assert rest == whole;
        }
        state, substate := 0, 0;
        ToldNewline(before, whole, rest);
      } else {
        if first == ';' || state != 3 {
          state, substate := 0, 0;
        }
        ToldPlain(before, whole, c);
      }
    }

    /** A character that is neither a blank nor a slash. */
    method Other(first: char, ghost before: string, ghost whole: string) returns (c: Option<char>, ghost upset: Upset)
      requires Valid() && Plain(state) && first != ' '
      requires whole != "" && whole[0] == first && rest == whole[1..] && Flushed(before, whole)
      modifies this`rest, this`state, this`oldState, this`outString, this`addNewlines, this`substate
      ensures Valid() && Lines() + Counted(c) == old(Lines()) + Counted(Some(first)) + Drift(upset)
      ensures IsSuffix(rest, before) && Told(before, rest, c, upset) && upset != EndInString
      ensures Plain(state) || (state == -1 && (oldState == 4 || Plain(oldState))) || (state == 5 && '"' in before)
      ensures first == '\'' ==> c == Some('(') && rest == Tail(whole[1..])
      ensures Given(c, Snapshot()) == ScrubSteps.Other(Lex(), first, old(Snapshot()))
    {
      hide Newlines, IsSuffix, TookLast, Told, Commented, Flushed, Held, Tail, ScrubSteps.Misc, ScrubSteps.Mark;
      HeadAndTail(whole);
      if IsMark(first) {
        c, upset := Mark(first, before, whole);
      } else {
        c, upset := Misc(first);
        ToldMisc(before, whole, rest, c, upset);
      }
    }

    /** A slash, with what is in front of it. */
    method Solidus(ghost before: string, ghost whole: string) returns (done: bool, c: Option<char>, ghost upset: Upset)
      requires Valid() && Plain(state)
      requires whole != "" && whole[0] == '/' && rest == whole[1..] && Flushed(before, whole)
      modifies this`rest, this`state, this`oldState, this`outString, this`addNewlines, this`substate
      ensures Valid() && Lines() + (if done then Counted(c) else 0) == old(Lines()) + Drift(upset)
      ensures !done ==> Plain(state) && upset == Undisturbed && Flushed(before, rest) && |rest| < |whole|
      ensures done ==> IsSuffix(rest, before) && Told(before, rest, c, upset) && upset != EndInString
      ensures Plain(state) || (state == -1 && oldState == 4)
      ensures Turn(done, if done then c else None, Snapshot()) == ScrubSteps.Slash(Lex(), old(Snapshot()))
    {
      hide Newlines, IsSuffix, TookLast, Told, Commented, Flushed, Held, ScrubSteps.Slash;
      ghost var behind := rest;
      HeadAndTail(whole);
      done, c, upset := Slash();
      SlashTold(before, whole, behind, rest, done, c, upset);
    }

    /** One character in states 0 to 3, 9 and 10: it is given out, or something is flushed. */
    method FlushOne(ghost before: string) returns (done: bool, c: Option<char>, ghost upset: Upset)
      requires Valid() && Plain(state) && Flushed(before, rest)
      modifies this`rest, this`state, this`oldState, this`outString, this`addNewlines, this`substate
      ensures Valid() && Lines() + (if done then Counted(c) else 0) == old(Lines()) + Drift(upset)
      ensures !done ==> Plain(state) && upset == Undisturbed && Flushed(before, rest) && |rest| < |old(rest)|
      ensures done ==> IsSuffix(rest, before) && Told(before, rest, c, upset) && upset != EndInString
      ensures done ==> Plain(state) || (state == -1 && (oldState == 4 || Plain(oldState))) || (state == 5 && '"' in before)
      ensures QuoteNext(old(state), old(rest)) ==> done && c == Some('(') && rest == Tail(old(rest)[1..])
      ensures Turn(done, if done then c else None, Snapshot()) == OneTurn(Lex(), old(Snapshot()))
    {
      hide Newlines, IsSuffix, TookLast, Told, Commented, Flushed, Held, Head, Tail, ScrubSteps.Other, ScrubSteps.Slash,
           ScrubSteps.Blanks;
      ghost var whole := rest;
      c := Getc();
      ghost var behind := rest;
      HeadAndTail(whole);
      done, upset := true, Undisturbed;
      if c == Some(' ') || c == Some('\t') {
        done, c := Blanks();
        FlushedBlank(before, whole, behind, rest);
        if done {
          ToldBlank(before, rest, c);
        }
      } else if c == Some('/') {
        done, c, upset := Solidus(before, whole);
      } else if c.Some? {
        c, upset := Other(c.value, before, whole);
      } else {
        EmptySuffix(before);
        ToldBlank(before, rest, c);
      }
    }

    /** States 0 to 3, 9 and 10: the next character that is not flushed. */
    method Flush() returns (c: Option<char>, ghost upset: Upset)
      requires Valid() && Plain(state)
      modifies this`rest, this`state, this`oldState, this`outString, this`addNewlines, this`substate
      ensures Given(c, Snapshot()) == ScrubSteps.Flush(Lex(), old(Snapshot()))
      ensures Valid() && Lines() + Counted(c) == old(Lines()) + Drift(upset)
      ensures IsSuffix(rest, old(rest)) && Told(old(rest), rest, c, upset) && upset != EndInString
      ensures Plain(state) || (state == -1 && (oldState == 4 || Plain(oldState))) || (state == 5 && '"' in old(rest))
      ensures QuoteNext(old(state), old(rest)) ==> c == Some('(') && rest == Tail(old(rest)[1..])
    {
      hide Newlines, IsSuffix, Told, Flushed, Tail, OneTurn;
      ghost var before, was := rest, state;
      FlushedSelf(before);
      c, upset := None, Undisturbed;
      var done := false;
      while !done
        invariant Valid() && Lines() + (if done then Counted(c) else 0) == old(Lines()) + Drift(upset)
        invariant !done ==> Plain(state) && upset == Undisturbed && Flushed(before, rest)
        invariant old(ScrubSteps.Flush(Lex(), Snapshot()))
          == if done then Given(c, Snapshot()) else ScrubSteps.Flush(Lex(), Snapshot())
        invariant done ==> IsSuffix(rest, before) && Told(before, rest, c, upset) && upset != EndInString
        invariant done ==> Plain(state) || (state == -1 && (oldState == 4 || Plain(oldState))) || (state == 5 && '"' in before)
        invariant !done && QuoteNext(was, before) ==> rest == before && state == was
        invariant done && QuoteNext(was, before) ==> c == Some('(') && rest == Tail(before[1..])
        decreases if done then 0 else |rest| + 1
      {
        done, c, upset := FlushOne(before);
      }
    }

    lemma SlashTold(before: string, whole: string, behind: string, after: string, done: bool, c: Option<char>, upset: Upset)
      requires Flushed(before, whole) && whole == ['/'] + behind
      requires !done ==> Flushed(behind, after)
      requires done ==> IsSuffix(after, whole) && Commented(whole, after, c, upset)
      ensures !done ==> Flushed(before, after)
      ensures done ==> IsSuffix(after, before) && Told(before, after, c, upset) && upset != EndInString
    {
      FlushedTail(before, whole);
      assert behind == whole[1..];
      if done {
        ToldMisc(before, whole, after, c, upset);
      } else {
        FlushedTrans(before, behind, after);
      }
    }

    /** One step, before it is counted. */
    method Dispatch() returns (c: Option<char>, ghost upset: Upset)
      requires Valid() && (state == 8 ==> '\n' in rest)
      modifies this`rest, this`state, this`oldState, this`outString, this`addNewlines, this`substate
      ensures Valid() && Lines() + Counted(c) == old(Lines()) + Drift(upset)
      ensures (upset == EndInString <==> old(state) == 5 && old(rest) == "") && Told(old(rest), rest, c, upset)
      ensures Moved(old(rest), rest, old(state), state)
      ensures old(state) == 5 && old(rest) != "" ==> c == Some(old(rest)[0])
      ensures QuoteNext(old(state), old(rest)) ==> c == Some('(') && rest == Tail(old(rest)[1..])
      ensures old(Outside(state, oldState) && '"' !in rest) || upset == EndInString ==> Outside(state, oldState)
      ensures old(Common(Snapshot())) ==> Given(c, Snapshot()) == Step(Lex(), old(Snapshot()))
    {
      hide Newlines, IsSuffix, TookLast, Told, Moved, Held, Tail, ScrubSteps.Flush, ScrubSteps.StringChar,
           ScrubSteps.Escape, ScrubSteps.FromOutString;
      ghost var before, was := rest, state;
      SuffixSelf(before);
      upset := Undisturbed;
      if state == 5 {
        c, upset := StringChar();
        StringTold(before, rest, c, state);
      } else if state == 6 {
        c := Escape();
        EscapeTold(before, rest, c);
      } else if Plain(state) {
        c, upset := Flush();
        MovedSuffix(before, rest, was, state);
      } else {
        if state == -1 {
          c := FromOutString();
        } else if state == -2 {
          c := RestOfComment();
        } else if state == 4 {
          c := LineNumber();
        } else if state == 7 {
          c := Getc();
          state, oldState := 5, 8;
        } else {
          c := ReadLine();
          state, substate := 0, 0;
        }
        TookTold(before, rest, c, was, state);
      }
    }

    /** One character of the input as the assembler gets to see it.  A line directive has to end. */
    method Next() returns (c: Option<char>, ghost upset: Upset)
      requires Valid() && Accounted() && (state == 8 ==> '\n' in rest)
      modifies this
      ensures Valid() && Accounted()
      ensures returned == old(returned) + Counted(c) && drift == old(drift) + Drift(upset)
      ensures upset == EndInString <==> old(state) == 5 && old(rest) == ""
      ensures Told(old(rest), rest, c, upset)
      ensures Moved(old(rest), rest, old(state), state)
      ensures old(state) == 5 && old(rest) != "" ==> c == Some(old(rest)[0])
      ensures QuoteNext(old(state), old(rest)) ==> c == Some('(') && rest == Tail(old(rest)[1..])
      ensures old(Quiet()) || upset == EndInString ==> Quiet()
      ensures old(Common(Snapshot())) ==> Given(c, Snapshot()) == Step(Lex(), old(Snapshot()))
    {
      hide Newlines, IsSuffix, Told, Moved, Held, Step, Common;
      ghost var before, was := rest, state;
      c, upset := Dispatch();
      returned, drift := returned + Counted(c), drift + Drift(upset);
      if '"' !in before {
        NoneNew(before, rest, was, state, '"');
      }
    }

    /** What has been given out and what is to come make up the glyphs of a text without directives. */
    ghost predicate Tracks(k: Track, all: seq<Glyph>)
      reads this
    {
      Tabled(Lex()) && NoDirective(all) && Holds(Lex(), Snapshot(), k, all)
    }

    /** One step gives out the next glyph, or a blank in front of it. */
    method Give(ghost k: Track, ghost all: seq<Glyph>) returns (c: Option<char>, ghost upset: Upset, ghost k': Track)
      requires Valid() && Accounted() && (state == 8 ==> '\n' in rest)
      modifies this
      ensures Valid() && Accounted()
      ensures returned == old(returned) + Counted(c) && drift == old(drift) + Drift(upset)
      ensures upset == EndInString <==> old(state) == 5 && old(rest) == ""
      ensures Told(old(rest), rest, c, upset)
      ensures Moved(old(rest), rest, old(state), state)
      ensures old(state) == 5 && old(rest) != "" ==> c == Some(old(rest)[0])
      ensures old(Quiet()) || upset == EndInString ==> Quiet()
      ensures old(Tracks(k, all)) ==>
        && Faithful(Lex(), k, all) && Faithful(Lex(), k', all)
        && if c.None? then k'.given == all && !k'.blank && Shown(k') == Shown(k)
           else Tracks(k', all) && Shown(k') == Shown(k) + [c.value]
    {
      hide Newlines, Told, Moved, Step, Holds, Faithful, Shown, Gives, Tabled, NoDirective;
      ghost var v := Snapshot();
      ghost var tracked := Tracks(k, all);
      k' := k;
      if tracked {
        HoldsFaithful(Lex(), v, k, all);
        k' := StepHolds(Lex(), v, k, all);
      }
      c, upset := Next();
      if tracked {
        GivenOut(Lex(), v, k, k', all);
      }
    }

    lemma GivenOut(lex: Lexicon, v: View, k: Track, k': Track, all: seq<Glyph>)
      requires Common(v) && Faithful(lex, k, all)
      requires var r := Step(lex, v);
        if r.c.None? then !k'.blank && k'.given == k.given == all && k'.blanks == k.blanks && !k.blank
        else Holds(lex, r.v, k', all) && Gives(k, r.c.value, k')
      ensures Faithful(lex, k', all)
      ensures var r := Step(lex, v);
        if r.c.None? then k'.given == all && !k'.blank && Shown(k') == Shown(k)
        else Holds(lex, r.v, k', all) && Shown(k') == Shown(k) + [r.c.value]
    {
      hide Step, Holds, WellSpaced, Gives, Spread;
      var r := Step(lex, v);
      if r.c.Some? {
        HoldsFaithful(lex, r.v, k', all);
        ShownMore(k, r.c.value, k');
      }
    }

    /** Calls for the next character until the input is used up, or a number of times.  However often
        that is, on regular input the lines given out and still to come are those of the input, and
        one more from when it has ended in a string, with nothing left but the newline made up.  And in
        text without directives the next glyphs are given out, all of them if there are calls enough. */
    method Run(times: nat, ghost k: Track, ghost all: seq<Glyph>)
      returns (out: string, ghost trace: seq<Moment>, ghost k': Track)
      requires Valid() && Accounted() && (Regular(rest, state) || Tracks(k, all))
      modifies this
      ensures Valid() && Accounted()
      ensures Traces(trace, old(Moment(state, rest)), Moment(state, rest)) && |trace| <= times + 1
      ensures returned == old(returned) + Newlines(out)
      ensures old(Regular(rest, state)) ==>
        && Regular(rest, state)
        && drift == old(drift) + (if SomeEnded(trace) then 1 else 0)
        && (old(Quiet()) || !AtEnd(rest) ==> !SomeEnded(trace))
      ensures old(Tracks(k, all)) ==>
        && Faithful(Lex(), k, all) && Faithful(Lex(), k', all) && Shown(k') == Shown(k) + out
        && (|out| < times ==> k'.given == all && !k'.blank)
    {
      hide Newlines, NoQuotedNewline, Told, Moved, Holds, WellSpaced, Shown, Tabled, NoDirective, Common;
      ghost var regular, tracked := Regular(rest, state), Tracks(k, all);
      out, k' := "", k;
      trace := [Moment(state, rest)];
      NewlinesNone();
      if tracked {
        HoldsFaithful(Lex(), Snapshot(), k, all);
      }
      var n, more := 0, true;
      while n < times && more
        invariant Valid() && Accounted() && 0 <= n <= times && (more && !regular ==> tracked)
        invariant Traces(trace, old(Moment(state, rest)), Moment(state, rest)) && |trace| == n + 1
        invariant returned == old(returned) + Newlines(out)
        invariant regular ==> Regular(rest, state) && drift == old(drift) + if SomeEnded(trace) then 1 else 0
        invariant regular && (SomeEnded(trace) || old(Quiet())) ==> Quiet()
        invariant regular && (old(Quiet()) || !AtEnd(rest)) ==> !SomeEnded(trace)
        invariant tracked ==> Faithful(Lex(), k, all) && Faithful(Lex(), k', all) && Shown(k') == Shown(k) + out
        invariant tracked && more ==> Tracks(k', all) && |out| == n
        invariant tracked && !more ==> k'.given == all && !k'.blank
        decreases times - n
      {
        ghost var before, was := rest, state;
        var c;
        ghost var upset;
        NoFileName(k', all);
        c, upset, k' := Give(k', all);
        if regular {
          RegularStays(before, rest, was, state);
          RegularTold(before, rest, was, state, c, upset);
          EndStays(before, rest, was, state);
        }
        TraceMore(trace, Moment(state, rest));
        trace := trace + [Moment(state, rest)];
        if c.Some? {
          NewlinesAppend(out, c.value);
          out := out + [c.value];
        }
        n, more := n + 1, c.Some?;
      }
    }

    lemma NoFileName(k: Track, all: seq<Glyph>)
      ensures Tracks(k, all) ==> state != 8
      ensures Regular(rest, state) && state == 8 ==> '\n' in rest
    {
      hide Tabled, NoDirective, WellSpaced, Level;
    }
  }

  /** The lines of a whole text: what comes out in any number of steps and what is left make up the
      lines of the text, and one more exactly if some step found the text at its end in a string.  That
      can only be when all of the text has been read and there is a quotation mark in it.  And its
      glyphs: in text without directives they come out in their order, well spaced, and all of them in
      steps enough. */
  method ScrubText(comment: set<char>, lineComment: set<char>, symbol: set<char>, input: string, times: nat)
    returns (out: string, left: nat, rest: string, ghost trace: seq<Moment>, ghost k: Track)
    requires '\n' !in comment && '\n' !in lineComment && '\n' !in symbol
    requires var lex := Lexicon(comment, lineComment, symbol);
      || (NoQuotedNewline(input) && !Unfinished(input))
      || (Tabled(lex) && NoDirective(Glyphs(lex, input, 0, false, true)))
    ensures NoQuotedNewline(input) && !Unfinished(input) ==>
      && Newlines(rest) <= left
      && Newlines(input) <= Newlines(out) + left <= Newlines(input) + 1
      && ('"' !in input || !AtEnd(rest) ==> Newlines(out) + left == Newlines(input))
    ensures |trace| > 0 && Traces(trace, Moment(0, input), trace[|trace| - 1]) && trace[|trace| - 1].rest == rest
    ensures NoQuotedNewline(input) && !Unfinished(input) ==>
      Newlines(out) + left == Newlines(input) + if SomeEnded(trace) then 1 else 0
    ensures var lex := Lexicon(comment, lineComment, symbol);
      var all := Glyphs(lex, input, 0, false, true);
      Tabled(lex) && NoDirective(all) && 2 * |all| + 1 < times ==>
        exists blanks :: |blanks| == |all| && WellSpaced(lex, all, blanks) && out == Spread(all, blanks)
    ensures var lex := Lexicon(comment, lineComment, symbol);
      var all := Glyphs(lex, input, 0, false, true);
      Tabled(lex) && NoDirective(all) ==>
        && Faithful(lex, k, all) && out == Shown(k)
        && (2 * |all| + 1 < times ==> k.given == all && !k.blank)
  {
    hide Glyphs, Tabled, NoDirective, Holds, WellSpaced, Shown, NoQuotedNewline;
    var scrub := new Scrub(comment, lineComment, symbol, input);
    ghost var all := Glyphs(scrub.Lex(), input, 0, false, true);
    StartHolds(scrub.Lex(), input);
    out, trace, k := scrub.Run(times, Begun(), all);
    left, rest := scrub.Lines(), scrub.rest;
    ShownOf(k, all, out);
    AllShown(k, all);
  }

  lemma AllShown(k: Track, all: seq<Glyph>)
    ensures |k.given| == |k.blanks| && k.given == all && !k.blank ==> Shown(k) == Spread(all, k.blanks)
  {
    hide Spread;
  }

  lemma ShownOf(k: Track, all: seq<Glyph>, out: string)
    ensures Shown(Begun()) == "" && "" + out == out
    ensures |k.given| == |k.blanks| && k.given <= all ==> |Shown(k)| <= 2 * |all| + 1
  {
    if |k.given| == |k.blanks| && k.given <= all {
      SpreadLength(k.given, k.blanks);
    }
  }

  /** A quote and a newline as the first two characters: the newline is lost. */
  method QuotedNewlineExample() returns (c: Option<char>, ghost drift: int)
    ensures c == Some('(') && drift == -1
  {
    var scrub := new Scrub({}, {}, {}, "'\n");
    ghost var upset;
    c, upset := scrub.Next();
    drift := scrub.drift;
  }

  /** A comment between two symbols becomes a blank, and one at the end of a line is left out. */
  method CommentExample() returns (out: string)
    ensures out == "a b\n"
  {
    IntelTabled();
    ExampleReads(Intel());
    hide Glyphs, Faithful, Shown, Tabled, NoDirective, NoQuotedNewline, Unfinished, Newlines, Traces, AtEnd, WellSpaced, Spread;
    var lex := Intel();
    var left, rest;
    ghost var trace, k;
    out, left, rest, trace, k := ScrubText(lex.comment, lex.lineComment, lex.symbol, EXAMPLE, 9);
    ghost var blanks :| |blanks| == 3 && WellSpaced(lex, ExampleGlyphs(), blanks) && out == Spread(ExampleGlyphs(), blanks);
    ExampleShown(lex, blanks);
  }
}
