/** `TextExtractor`, the HTML parser subclass that collects the visible text
    of a dumped page: text inside `script` and `style` elements is skipped,
    every other run of text is stripped and kept if anything is left. The
    tokenisation done by `HTMLParser` itself is not modelled: the extractor
    is fed the sequence of start-tag, end-tag and data events it produces. */
module TextExtraction {
  import opened Strings

  /** One callback of the parser; the attributes of a start tag are unused. */
  datatype Event = StartTag(tag: string) | EndTag(tag: string) | Data(text: string)

  /** The characters `str.isspace` accepts, which `str.strip()` removes. */
  const WHITESPACE: set<char> := {
    '\t', '\n', '\U{b}', '\U{c}', '\r', '\U{1c}', '\U{1d}', '\U{1e}', '\U{1f}', ' ',
    '\U{85}', '\U{a0}', '\U{1680}', '\U{2000}', '\U{2001}', '\U{2002}', '\U{2003}',
    '\U{2004}', '\U{2005}', '\U{2006}', '\U{2007}', '\U{2008}', '\U{2009}', '\U{200a}',
    '\U{2028}', '\U{2029}', '\U{202f}', '\U{205f}', '\U{3000}'
  }

  /** `c.lower()` for ASCII letters; other characters are kept. No other
      character lowers to a letter of `script` or `style`, so the test below
      is exact for those two names. */
  function LowerChar(c: char): char {
    if 'A' <= c <= 'Z' then (c as int + 32) as char else c
  }

  function Lower(s: string): (r: string)
    ensures |r| == |s|
    ensures forall i :: 0 <= i < |s| ==> r[i] == LowerChar(s[i])
  {
    if |s| == 0 then "" else [LowerChar(s[0])] + Lower(s[1..])
  }

  /** `tag.lower() in ("script", "style")` */
  predicate IsSkipTag(tag: string) {
    Lower(tag) == "script" || Lower(tag) == "style"
  }

  /** The extractor's fields as a value. */
  datatype State = State(texts: seq<string>, skip: bool)

  /** A captured piece: non-empty, and with nothing left to strip. */
  predicate Clean(piece: string) {
    piece != "" && Strip(piece, WHITESPACE) == piece
  }

  /** The effect of one callback: a start or end tag only sets or clears
      the flag, and only for `script` and `style`; a run of text adds at
      most one piece, and only while the flag is off. */
  function Step(st: State, e: Event): (r: State)
    ensures st.texts <= r.texts && |r.texts| <= |st.texts| + 1
    ensures |r.texts| > |st.texts| ==> e.Data? && !st.skip
    ensures !e.Data? ==> r.texts == st.texts
    ensures e.Data? ==> r.skip == st.skip
    ensures (e.StartTag? || e.EndTag?) && !IsSkipTag(e.tag) ==> r == st
  {
    match e
    case StartTag(tag) => if IsSkipTag(tag) then st.(skip := true) else st
    case EndTag(tag) => if IsSkipTag(tag) then st.(skip := false) else st
    case Data(text) =>
      if !st.skip && Strip(text, WHITESPACE) != "" then st.(texts := st.texts + [Strip(text, WHITESPACE)])
      else st
  }

  /** The effect of a run of callbacks, in order: pieces are only
      appended, at most one per callback. */
  function Run(st: State, events: seq<Event>): (r: State)
    ensures st.texts <= r.texts && |r.texts| <= |st.texts| + |events|
    decreases |events|
  {
    if |events| == 0 then st else Step(Run(st, events[..|events| - 1]), events[|events| - 1])
  }

  /** A run over one more callback is one more step. */
  lemma RunOneMore(st: State, events: seq<Event>, i: nat)
    requires i < |events|
    ensures Run(st, events[..i + 1]) == Step(Run(st, events[..i]), events[i])
  {
    assert events[..i + 1][..i] == events[..i];
  }

  /** What `get_text` returns for the captured pieces. */
  function Joined(texts: seq<string>): string {
    Join(texts, "\n")
  }

  /** A stripped text strips to itself. */
  lemma StripIsIdempotent(s: string, chars: set<char>)
    ensures Strip(Strip(s, chars), chars) == Strip(s, chars)
  {
    var l := LStrip(s, chars);
    var r := RStrip(l, chars);
    if |r| > 0 {
      assert r[0] == l[0];
      assert LStrip(r, chars) == r;
      assert RStrip(r, chars) == r;
    }
  }

  /** Every piece that is captured is clean. */
  lemma StepKeepsPiecesClean(st: State, e: Event)
    requires forall k :: 0 <= k < |st.texts| ==> Clean(st.texts[k])
    ensures forall k :: 0 <= k < |Step(st, e).texts| ==> Clean(Step(st, e).texts[k])
  {
    if e.Data? && !st.skip && Strip(e.text, WHITESPACE) != "" {
      var piece := Strip(e.text, WHITESPACE);
      StripIsIdempotent(e.text, WHITESPACE);
      assert Step(st, e).texts == st.texts + [piece];
      forall k | 0 <= k < |Step(st, e).texts| ensures Clean(Step(st, e).texts[k]) {
        if k < |st.texts| { assert Step(st, e).texts[k] == st.texts[k]; }
      }
    } else {
      assert Step(st, e).texts == st.texts;
    }
  }

  /** Over a whole run, pieces are only appended, and each one is clean. */
  lemma {:induction false} RunKeepsPiecesClean(st: State, events: seq<Event>)
    requires forall k :: 0 <= k < |st.texts| ==> Clean(st.texts[k])
    ensures forall k :: 0 <= k < |Run(st, events).texts| ==> Clean(Run(st, events).texts[k])
    ensures |st.texts| <= |Run(st, events).texts| && Run(st, events).texts[..|st.texts|] == st.texts
    decreases |events|
  {
    if |events| > 0 {
      var prev := Run(st, events[..|events| - 1]);
      RunKeepsPiecesClean(st, events[..|events| - 1]);
      StepKeepsPiecesClean(prev, events[|events| - 1]);
      assert Run(st, events).texts[..|prev.texts|] == prev.texts;
      assert prev.texts[..|st.texts|] == st.texts;
    }
  }

  /** A run of three callbacks, spelled out. */
  lemma RunOfThree(st: State, a: Event, b: Event, c: Event)
    ensures Run(st, [a, b, c]) == Step(Step(Step(st, a), b), c)
  {
    var events := [a, b, c];
    assert events[..0] == [] && events[..3] == events;
    RunOneMore(st, events, 0);
    RunOneMore(st, events, 1);
    RunOneMore(st, events, 2);
  }

  /** `t` spells the lower-case word `w` with any of its letters in upper
      case. */
  predicate CaseVariant(t: string, w: string) {
    |t| == |w| && forall i :: 0 <= i < |t| ==> t[i] == w[i] || t[i] == UpperChar(w[i])
  }

  /** `c.upper()` for ASCII letters; other characters are kept. */
  function UpperChar(c: char): char {
    if 'a' <= c <= 'z' then (c as int - 32) as char else c
  }

  /** Lowering gives a lower-case word exactly for its letter-case variants. */
  lemma LowerMatches(t: string, w: string)
    requires forall i :: 0 <= i < |w| ==> 'a' <= w[i] <= 'z'
    ensures Lower(t) == w <==> CaseVariant(t, w)
  {
    if CaseVariant(t, w) {
      assert forall i :: 0 <= i < |t| ==> Lower(t)[i] == w[i];
    }
  }

  /** The tags the extractor skips are `script` and `style` in any letter
      case, and nothing else. */
  lemma SkipTagNames(tag: string)
    ensures IsSkipTag(tag) <==> CaseVariant(tag, "script") || CaseVariant(tag, "style")
    ensures IsSkipTag("script") && IsSkipTag("style")
  {
    LowerMatches(tag, "script");
    LowerMatches(tag, "style");
    assert Lower("script") == "script";
    assert Lower("style") == "style";
  }

  /** The flag is not a nesting counter: an end tag of the other kind
      inside a `script` element switches capture back on. */
  lemma EndStyleInsideScriptResumes(st: State, text: string)
    requires Strip(text, WHITESPACE) != ""
    ensures Run(st, [StartTag("script"), EndTag("style"), Data(text)])
         == State(st.texts + [Strip(text, WHITESPACE)], false)
  {
    RunOfThree(st, StartTag("script"), EndTag("style"), Data(text));
    SkipTagNames("script");
    var s2 := Step(Step(st, StartTag("script")), EndTag("style"));
    assert s2 == st.(skip := false);
  }

  /** Text inside a `script` element, in any letter case, is not captured,
      and neither is text inside the nested element that follows. */
  lemma ScriptTextIsSkipped(st: State, tag: string, inner: string, text: string)
    requires Lower(tag) == "script" && !IsSkipTag(inner)
    ensures Run(st, [StartTag(tag), StartTag(inner), Data(text)]) == st.(skip := true)
  {
    RunOfThree(st, StartTag(tag), StartTag(inner), Data(text));
  }

  /** When no piece contains a newline, `get_text` can be split back into
      the pieces. */
  lemma JoinedSplitsBack(texts: seq<string>)
    ensures |texts| >= 1 && (forall k :: 0 <= k < |texts| ==> '\n' !in texts[k]) ==>
      Split(Joined(texts), "\n") == texts
  {
    if |texts| >= 1 && (forall k :: 0 <= k < |texts| ==> '\n' !in texts[k]) {
      assert "\n" == ['\n'];
      SplitJoinChar(texts, '\n');
    }
  }

  class TextExtractor {
    /** `_texts` */
    var texts: seq<string>
    /** `_skip` */
    var skip: bool

    constructor ()
      ensures texts == [] && !skip
    {
      texts := [];
      skip := false;
    }

    /** `handle_starttag` */
    method HandleStartTag(tag: string)
      modifies this
      ensures State(texts, skip) == Step(old(State(texts, skip)), StartTag(tag))
      ensures skip == (IsSkipTag(tag) || old(skip)) && texts == old(texts)
    {
      if IsSkipTag(tag) {
        skip := true;
      }
    }

    /** `handle_endtag` */
    method HandleEndTag(tag: string)
      modifies this
      ensures State(texts, skip) == Step(old(State(texts, skip)), EndTag(tag))
      ensures skip == (!IsSkipTag(tag) && old(skip)) && texts == old(texts)
    {
      if IsSkipTag(tag) {
        skip := false;
      }
    }

    /** `handle_data` */
    method HandleData(data: string)
      modifies this
      ensures State(texts, skip) == Step(old(State(texts, skip)), Data(data))
      ensures skip == old(skip)
      ensures old(skip) ==> texts == old(texts)
    {
      if !skip {
        var text := Strip(data, WHITESPACE);
        if text != "" {
          texts := texts + [text];
        }
      }
    }

    /** `get_text`: the pieces in arrival order, one per line; they split
        back into the pieces when none holds a newline. */
    function GetText(): (r: string)
      reads this
      ensures |texts| >= 1 && (forall k :: 0 <= k < |texts| ==> '\n' !in texts[k]) ==> Split(r, "\n") == texts
    {
      JoinedSplitsBack(texts);
      Joined(texts)
    }

    /** `feed`, given the events the tokeniser produces. */
    method Feed(events: seq<Event>)
      modifies this
      ensures State(texts, skip) == Run(old(State(texts, skip)), events)
    {
      ghost var start := State(texts, skip);
      var i := 0;
      while i < |events|
        invariant 0 <= i <= |events|
        invariant State(texts, skip) == Run(start, events[..i])
      {
        RunOneMore(start, events, i);
        match events[i] {
          case StartTag(tag) => HandleStartTag(tag);
          case EndTag(tag) => HandleEndTag(tag);
          case Data(text) => HandleData(text);
        }
        i := i + 1;
      }
      assert events[..i] == events;
    }
  }

  /** `extract_text_from_file` once the file is read and tokenised: a new
      extractor is fed the events, and its text is returned. */
  method ExtractText(events: seq<Event>) returns (text: string)
    ensures text == Joined(Run(State([], false), events).texts)
    ensures forall k :: 0 <= k < |Run(State([], false), events).texts| ==> Clean(Run(State([], false), events).texts[k])
  {
    var parser := new TextExtractor();
    parser.Feed(events);
    text := parser.GetText();
    RunKeepsPiecesClean(State([], false), events);
  }
}
