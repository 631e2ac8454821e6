/**
 * The demo code editor (`code-editor.tsx`): HTML escaping of each line,
 * line numbering, switching the example program with the language, the
 * scripted welcome sequence, and the dispatch of syntax highlighting. The
 * example programs are a table supplied by the caller and the regular-
 * expression highlighters are an opaque function parameter.
 */
module CodeEditor {
  import opened Wrappers
  import opened Text

  // ---------------------------------------------------------------- HTML escaping

  /** `s.replace(/c/g, rep)`: every occurrence of `c` replaced by `rep`. */
  function ReplaceAll(s: string, c: char, rep: string): string
    decreases |s|
  {
    if |s| == 0 then "" else (if s[0] == c then rep else [s[0]]) + ReplaceAll(s[1..], c, rep)
  }

  lemma {:induction false} ReplaceAllAppend(a: string, b: string, c: char, rep: string)
    ensures ReplaceAll(a + b, c, rep) == ReplaceAll(a, c, rep) + ReplaceAll(b, c, rep)
    decreases |a|
  {
    if |a| == 0 {
      assert a + b == b;
    } else {
      assert (a + b)[0] == a[0];
      assert (a + b)[1..] == a[1..] + b;
      ReplaceAllAppend(a[1..], b, c, rep);
    }
  }

  /** Replacing a character that does not occur changes nothing. */
  lemma {:induction false} ReplaceAllAbsent(s: string, c: char, rep: string)
    requires !Contains(s, c)
    ensures ReplaceAll(s, c, rep) == s
    decreases |s|
  {
    if |s| > 0 {
      assert !Contains(s[1..], c) by {
        forall i | 0 <= i < |s[1..]| ensures s[1..][i] != c { assert s[1..][i] == s[i + 1]; }
      }
      ReplaceAllAbsent(s[1..], c, rep);
      assert s == [s[0]] + s[1..];
    }
  }

  /** The escape as the editor writes it: "&" first, then "<", then ">". */
  function EscapeLine(line: string): string {
    ReplaceAll(ReplaceAll(ReplaceAll(line, '&', "&amp;"), '<', "&lt;"), '>', "&gt;")
  }

  function EscapeChar(c: char): string {
    if c == '&' then "&amp;" else if c == '<' then "&lt;" else if c == '>' then "&gt;" else [c]
  }

  /** The same escape as a single left-to-right substitution. */
  function Escape(s: string): (r: string)
    ensures |r| >= |s|
    ensures !Contains(r, '<') && !Contains(r, '>')
    ensures !Contains(s, '&') && !Contains(s, '<') && !Contains(s, '>') ==> r == s
    decreases |s|
  {
    if |s| == 0 then ""
    else
      var rest := Escape(s[1..]);
      assert !Contains(s, '&') ==> !Contains(s[1..], '&');
      assert !Contains(s, '<') ==> !Contains(s[1..], '<');
      assert !Contains(s, '>') ==> !Contains(s[1..], '>');
      var r := EscapeChar(s[0]) + rest;
      assert !Contains(r, '<') && !Contains(r, '>') by {
        forall i | 0 <= i < |r| ensures r[i] != '<' && r[i] != '>' {
          if i >= |EscapeChar(s[0])| { assert r[i] == rest[i - |EscapeChar(s[0])|]; }
        }
      }
      assert s == [s[0]] + s[1..];
      r
  }

  lemma EscapeLineAppend(a: string, b: string)
    ensures EscapeLine(a + b) == EscapeLine(a) + EscapeLine(b)
  {
    ReplaceAllAppend(a, b, '&', "&amp;");
    ReplaceAllAppend(ReplaceAll(a, '&', "&amp;"), ReplaceAll(b, '&', "&amp;"), '<', "&lt;");
    ReplaceAllAppend(ReplaceAll(ReplaceAll(a, '&', "&amp;"), '<', "&lt;"),
                     ReplaceAll(ReplaceAll(b, '&', "&amp;"), '<', "&lt;"), '>', "&gt;");
  }

  lemma ReplaceAllOne(c: char, x: char, rep: string)
    ensures ReplaceAll([c], x, rep) == if c == x then rep else [c]
  {
    assert [c][1..] == "";
  }

  /** On one character the three passes agree with the one-pass table. */
  lemma EscapeLineChar(c: char)
    ensures EscapeLine([c]) == EscapeChar(c)
  {
    ReplaceAllOne(c, '&', "&amp;");
    if c == '&' {
      assert !Contains("&amp;", '<') && !Contains("&amp;", '>');
      ReplaceAllAbsent("&amp;", '<', "&lt;");
      ReplaceAllAbsent("&amp;", '>', "&gt;");
    } else {
      ReplaceAllOne(c, '<', "&lt;");
      if c == '<' {
        assert !Contains("&lt;", '>');
        ReplaceAllAbsent("&lt;", '>', "&gt;");
      } else {
        ReplaceAllOne(c, '>', "&gt;");
      }
    }
  }

  /** The chained replacements agree with the one-pass escape on every line. */
  lemma {:induction false} EscapeLineIsEscape(line: string)
    ensures EscapeLine(line) == Escape(line)
    decreases |line|
  {
    if |line| == 0 {
      assert ReplaceAll(line, '&', "&amp;") == "";
      assert ReplaceAll("", '<', "&lt;") == "";
    } else {
      assert line == [line[0]] + line[1..];
      EscapeLineAppend([line[0]], line[1..]);
      EscapeLineChar(line[0]);
      EscapeLineIsEscape(line[1..]);
    }
  }

  /** Decoding the three entities the escape produces. */
  function Unescape(t: string): string
    decreases |t|
  {
    if |t| == 0 then ""
    else if |t| >= 5 && t[..5] == "&amp;" then "&" + Unescape(t[5..])
    else if |t| >= 4 && t[..4] == "&lt;" then "<" + Unescape(t[4..])
    else if |t| >= 4 && t[..4] == "&gt;" then ">" + Unescape(t[4..])
    else [t[0]] + Unescape(t[1..])
  }

  /** Decoding undoes the escape of the first character and leaves the rest to the recursion. */
  lemma UnescapeHead(c: char, t: string)
    ensures Unescape(EscapeChar(c) + t) == [c] + Unescape(t)
  {
    var e := EscapeChar(c) + t;
    if c == '&' {
      assert e[..5] == "&amp;" && e[5..] == t;
    } else if c == '<' {
      assert |e| >= 5 ==> e[..5] != "&amp;" by { assert |e| >= 5 ==> e[..5][1] == 'l'; }
      assert e[..4] == "&lt;" && e[4..] == t;
    } else if c == '>' {
      assert |e| >= 5 ==> e[..5] != "&amp;" by { assert |e| >= 5 ==> e[..5][1] == 'g'; }
      assert e[..4] != "&lt;" by { assert e[..4][1] == 'g'; }
      assert e[..4] == "&gt;" && e[4..] == t;
    } else {
      assert e[0] == c && e[1..] == t;
      assert |e| >= 5 ==> e[..5][0] == c;
      assert |e| >= 4 ==> e[..4][0] == c;
    }
  }

  /** Escaping loses nothing: decoding gives the line back. */
  lemma {:induction false} UnescapeEscape(s: string)
    ensures Unescape(Escape(s)) == s
    decreases |s|
  {
    if |s| > 0 {
      UnescapeEscape(s[1..]);
      UnescapeHead(s[0], Escape(s[1..]));
      assert s == [s[0]] + s[1..];
    }
  }

  // ---------------------------------------------------------------- line numbers

  /** The gutter: 1 up to the number of lines of the buffer. */
  function LineNumbers(code: string): (r: seq<nat>)
    ensures |r| == Count(code, '\n') + 1
    ensures forall i :: 0 <= i < |r| ==> r[i] == i + 1
  {
    seq(|Split(code, '\n')|, i => i + 1)
  }

  /** Even an empty buffer has line 1. */
  lemma EmptyBufferHasOneLine()
    ensures LineNumbers("") == [1]
  {
  }

  // ---------------------------------------------------------------- language and buffer

  datatype Language = JavaScript | Python | Html | Css | TypeScript

  /** The value the language menu stores for each entry. */
  function LanguageValue(l: Language): string {
    match l
    case JavaScript => "javascript"
    case Python => "python"
    case Html => "html"
    case Css => "css"
    case TypeScript => "typescript"
  }

  datatype Buffer = Buffer(language: Language, code: string)

  /** Picking a language replaces the whole buffer with that language's example program. */
  function ChangeLanguage(b: Buffer, l: Language, examples: Language -> string): (r: Buffer)
    ensures r.language == l && r.code == examples(l)
  {
    Buffer(l, examples(l))
  }

  /** Editing the text area keeps the language and takes the new text. */
  function EditCode(b: Buffer, text: string): (r: Buffer)
    ensures r.language == b.language && r.code == text
  {
    b.(code := text)
  }

  /**
   * Picking a language discards whatever was typed, and typing after a
   * language change keeps the language.
   */
  lemma ChangeLanguageDiscardsEdits(b: Buffer, text: string, l: Language, examples: Language -> string)
    ensures ChangeLanguage(EditCode(b, text), l, examples) == ChangeLanguage(b, l, examples)
    ensures EditCode(ChangeLanguage(b, l, examples), text) == Buffer(l, text)
  {
  }

  // ---------------------------------------------------------------- highlighting dispatch

  /** The four rule sets of the hand-written highlighter. */
  datatype RuleSet = ScriptRules | PythonRules | MarkupRules | StyleRules

  /** Which branch of `highlightCode` a language value takes, if any. */
  function RulesFor(language: string): Option<RuleSet> {
    if language == "javascript" || language == "typescript" then Some(ScriptRules)
    else if language == "python" then Some(PythonRules)
    else if language == "html" then Some(MarkupRules)
    else if language == "css" then Some(StyleRules)
    else None
  }

  /** `highlightCode`: the chosen rule set's rewriting, or the text untouched. */
  function HighlightCode(code: string, language: string, apply: (RuleSet, string) -> string): (r: string)
    ensures RulesFor(language).None? ==> r == code
    ensures RulesFor(language).Some? ==> r == apply(RulesFor(language).value, code)
  {
    match RulesFor(language)
    case None => code
    case Some(rules) => apply(rules, code)
  }

  /** Every entry of the language menu reaches one of the four branches. */
  lemma MenuLanguagesHighlighted(l: Language)
    ensures RulesFor(LanguageValue(l)).Some?
  {
  }

  /** One rendered line: escaped, highlighted, and a non-breaking space when that leaves nothing. */
  function RenderLine(line: string, language: string, apply: (RuleSet, string) -> string): (r: string)
    ensures |r| > 0
    ensures RulesFor(language).None? ==> r == (if line == "" then "&nbsp;" else Escape(line))
    ensures RulesFor(language).Some? ==>
              var h := apply(RulesFor(language).value, Escape(line));
              r == (if h == "" then "&nbsp;" else h)
  {
    EscapeLineIsEscape(line);
    assert line == "" <==> Escape(line) == "" by {
      if line != "" { assert |Escape(line)| >= |line| > 0; }
    }
    var h := HighlightCode(EscapeLine(line), language, apply);
    if h == "" then "&nbsp;" else h
  }

  /** The rendered lines, one per line of the buffer. */
  function RenderCode(b: Buffer, apply: (RuleSet, string) -> string): (r: seq<string>)
    ensures |r| == |LineNumbers(b.code)| == |Split(b.code, '\n')|
    ensures forall i :: 0 <= i < |r| ==> r[i] == RenderLine(Split(b.code, '\n')[i], LanguageValue(b.language), apply)
  {
    var lines := Split(b.code, '\n');
    seq(|lines|, i requires 0 <= i < |lines| => RenderLine(lines[i], LanguageValue(b.language), apply))
  }

  /** Without highlighting rules a line shows as its escape, which decodes back to the line. */
  lemma PlainLineRoundTrip(line: string, language: string, apply: (RuleSet, string) -> string)
    requires RulesFor(language).None? && line != ""
    ensures Unescape(RenderLine(line, language, apply)) == line
  {
    EscapeLineIsEscape(line);
    UnescapeEscape(line);
  }

  // ---------------------------------------------------------------- the welcome sequence

  datatype ActivityKind = SystemEntry | UserEntry | SelfEntry | SuccessEntry

  datatype Activity = Activity(message: string, kind: ActivityKind)

  /** The scripted entries, in the order the interval adds them. */
  const Script: seq<Activity> := [
    Activity("Creating code room...", SystemEntry),
    Activity("Room created successfully: codenest-x7f9q2", SystemEntry),
    Activity("Generating connection URL...", SystemEntry),
    Activity("Alice joined the room", UserEntry),
    Activity("You joined the room", SelfEntry),
    Activity("Bob joined the room", UserEntry),
    Activity("Loading collaborative environment...", SystemEntry),
    Activity("Starting real-time code sync...", SystemEntry),
    Activity("Ready to code! 3 developers online", SuccessEntry)
  ]

  /**
   * The welcome screen: whether it is shown, whether collaboration was
   * started, the log so far, the interval's counter, whether the interval
   * still runs and whether the 1500 ms hide timer is pending.
   */
  datatype Welcome = Welcome(showWelcome: bool, started: bool, log: seq<Activity>, next: nat,
                             ticking: bool, hidePending: bool)

  const Fresh: Welcome := Welcome(true, false, [], 0, false, false)

  /** What every reachable welcome state satisfies. */
  predicate Valid(w: Welcome) {
    && w.next <= |Script|
    && w.log == Script[..w.next]
    && (w.ticking ==> w.started && w.next < |Script|)
    && (w.hidePending ==> w.next == |Script|)
    && (!w.showWelcome ==> w.next == |Script|)
    && (!w.started ==> w.next == 0)
  }

  /**
   * The start button, shown only before collaboration has started: it
   * starts and the 800 ms interval begins, with nothing logged yet.
   */
  function Start(w: Welcome): (r: Welcome)
    ensures w.started ==> r == w
    ensures !w.started ==> r.started && r.ticking && r.log == w.log && r.showWelcome == w.showWelcome
  {
    if w.started then w else w.(started := true, ticking := true)
  }

  /**
   * One interval tick: the next scripted entry; after the last, the
   * interval stops and the hide timer starts. The entry is the one at the
   * counter before its increment, as intended; `StoredTick` below is the
   * tick as written, where that holds only when React applies the updater
   * at once (`EagerTickIsTick`). The source's fallback for an index past
   * the end cannot be reached from a valid state.
   */
  function Tick(w: Welcome): (r: Welcome)
    requires Valid(w)
    ensures Valid(r)
    ensures !w.ticking ==> r == w
    ensures w.ticking ==> r.log == w.log + [Script[w.next]] && r.showWelcome == w.showWelcome
    ensures w.ticking ==> (r.hidePending <==> r.log == Script) && (r.ticking <==> |r.log| < |Script|)
  {
    if !w.ticking then w
    else
      var n := w.next + 1;
      assert Script[..n] == Script[..w.next] + [Script[w.next]];
      w.(log := w.log + [Script[w.next]], next := n, ticking := n < |Script|, hidePending := n == |Script|)
  }

  /** The hide timer: the welcome screen gives way to the editor, the log kept. */
  function HideFires(w: Welcome): (r: Welcome)
    ensures w.hidePending ==> !r.showWelcome && !r.hidePending && r.log == w.log
    ensures !w.hidePending ==> r == w
  {
    if w.hidePending then w.(showWelcome := false, hidePending := false) else w
  }

  /** The log only ever holds a prefix of the script, grown one entry per tick, in order. */
  lemma EventsKeepValid(w: Welcome)
    requires Valid(w)
    ensures Valid(Start(w)) && Valid(Tick(w)) && Valid(HideFires(w))
    ensures w.ticking ==> Tick(w).log == w.log + [Script[w.next]]
    ensures !w.ticking ==> Tick(w) == w
  {
  }

  /** The editor replaces the welcome screen only after all nine entries were added. */
  lemma HiddenOnlyWhenComplete(w: Welcome)
    requires Valid(w) && !w.showWelcome
    ensures w.log == Script
  {
  }

  /** The closing "ready" line is on screen exactly when the log is complete. */
  lemma SuccessShownIffComplete(w: Welcome)
    requires Valid(w)
    ensures (|w.log| > 0 && w.log[|w.log| - 1].kind == SuccessEntry) <==> w.next == |Script|
  {
  }

  /** Nine ticks after the start the log is complete and the hide timer is pending. */
  lemma NineTicksComplete()
    ensures var w := TickN(Start(Fresh), |Script|);
            Valid(w) && w.log == Script && w.hidePending && !w.ticking
  {
    TickNValid(Start(Fresh), |Script|);
  }

  function TickN(w: Welcome, n: nat): Welcome
    requires Valid(w)
    decreases n
  {
    if n == 0 then w
    else
      EventsKeepValid(w);
      TickN(Tick(w), n - 1)
  }

  lemma {:induction false} TickNValid(w: Welcome, n: nat)
    requires Valid(w) && w.ticking && w.next + n <= |Script|
    ensures Valid(TickN(w, n)) && TickN(w, n).next == w.next + n
    ensures w.next + n == |Script| ==> TickN(w, n).hidePending && !TickN(w, n).ticking
    ensures w.next + n < |Script| ==> TickN(w, n).ticking
    decreases n
  {
    if n > 0 {
      EventsKeepValid(w);
      if w.next + 1 < |Script| {
        TickNValid(Tick(w), n - 1);
      }
    }
  }

  // ---------------------------------------------------------------- when the updater reads the counter

  /** `activities[k]`: the scripted entry, or `undefined` past the end. */
  function EntryAt(k: nat): (r: Option<Activity>)
    ensures r.Some? <==> k < |Script|
    ensures r.Some? ==> r.value == Script[k]
  {
    if k < |Script| then Some(Script[k]) else None
  }

  /**
   * The welcome log as React stores it, `undefined` entries included, with
   * the interval's counter and timers. Each tick queues the updater
   * `prev => [...prev, activities[i]]` and then runs `i++`; the updater reads
   * the shared counter when React applies it: at once when React computes
   * the new state eagerly, or at the next render, after the increment.
   */
  datatype StoredLog = StoredLog(entries: seq<Option<Activity>>, next: nat, ticking: bool, hidePending: bool)

  /** The stored form of a modelled welcome state: every entry present. */
  function StoredOf(w: Welcome): (s: StoredLog)
    ensures |s.entries| == |w.log|
    ensures forall k :: 0 <= k < |w.log| ==> s.entries[k] == Some(w.log[k])
    ensures s.next == w.next && s.ticking == w.ticking && s.hidePending == w.hidePending
  {
    StoredLog(seq(|w.log|, k requires 0 <= k < |w.log| => Some(w.log[k])), w.next, w.ticking, w.hidePending)
  }

  /**
   * One interval tick as written. `eager` is React's choice: whether the
   * queued updater read `i` before the increment.
   */
  function StoredTick(s: StoredLog, eager: bool): (r: StoredLog)
    ensures !s.ticking ==> r == s
    ensures s.ticking && s.next >= |Script| ==> r == s.(ticking := false)
    ensures s.ticking && s.next < |Script| ==>
              && r.entries == s.entries + [EntryAt(if eager then s.next else s.next + 1)]
              && r.next == s.next + 1
              && (r.ticking <==> r.next < |Script|) && (r.hidePending <==> r.next == |Script|)
  {
    if !s.ticking then s
    else if s.next >= |Script| then s.(ticking := false)
    else
      var n := s.next + 1;
      s.(entries := s.entries + [EntryAt(if eager then s.next else n)], next := n,
         ticking := n < |Script|, hidePending := n == |Script|)
  }

  /** When the updater reads the counter at once, the tick as written is the modelled tick. */
  lemma EagerTickIsTick(w: Welcome)
    requires Valid(w)
    ensures StoredTick(StoredOf(w), true) == StoredOf(Tick(w))
  {
    var l := StoredTick(StoredOf(w), true);
    var r := StoredOf(Tick(w));
    if w.ticking {
      assert l.entries == r.entries by {
        assert |l.entries| == |r.entries|;
        forall k | 0 <= k < |l.entries| ensures l.entries[k] == r.entries[k] {
          if k < |w.log| { assert l.entries[k] == StoredOf(w).entries[k]; }
        }
      }
    }
  }

  /** `n` ticks, each updater read at the next render. */
  function DeferredTicks(s: StoredLog, n: nat): StoredLog
    decreases n
  {
    if n == 0 then s else DeferredTicks(StoredTick(s, false), n - 1)
  }

  /** The shape of a log whose every updater was read at the next render: shifted by one. */
  predicate Shifted(s: StoredLog) {
    && |s.entries| == s.next <= |Script|
    && (s.ticking <==> s.next < |Script|)
    && (s.hidePending <==> s.next == |Script|)
    && forall k :: 0 <= k < s.next ==> s.entries[k] == EntryAt(k + 1)
  }

  lemma {:induction false} DeferredTicksShifted(s: StoredLog, n: nat)
    requires Shifted(s) && s.next + n <= |Script|
    ensures Shifted(DeferredTicks(s, n)) && DeferredTicks(s, n).next == s.next + n
    decreases n
  {
    if n > 0 {
      var t := StoredTick(s, false);
      assert Shifted(t) by {
        forall k | 0 <= k < t.next ensures t.entries[k] == EntryAt(k + 1) {
          if k < s.next { assert t.entries[k] == s.entries[k]; }
        }
      }
      DeferredTicksShifted(t, n - 1);
    }
  }

  /** "Creating code room..." occurs once in the script. */
  lemma FirstEntryOnce(j: nat)
    requires 0 < j < |Script|
    ensures Script[j] != Script[0]
  {
    assert Script[0].message[0] == 'C';
    assert Script[j].message[0] != 'C';
  }

  /** The success banner's test: the last stored entry is present and is the success line. */
  predicate SuccessShown(entries: seq<Option<Activity>>) {
    |entries| > 0 && entries[|entries| - 1].Some? && entries[|entries| - 1].value.kind == SuccessEntry
  }

  /**
   * With every updater read at the next render, the first entry is never
   * logged, the success banner shows after the eighth tick, and the ninth
   * tick logs `undefined`, which hides the banner again before the editor
   * replaces the welcome screen.
   */
  lemma DeferredLogLosesFirstAndLast()
    ensures var eight := DeferredTicks(StoredOf(Start(Fresh)), 8);
            var nine := DeferredTicks(StoredOf(Start(Fresh)), 9);
            && SuccessShown(eight.entries)
            && nine.entries[8] == None && !SuccessShown(nine.entries)
            && nine.hidePending && !nine.ticking
            && Some(Script[0]) !in nine.entries
  {
    var start := StoredOf(Start(Fresh));
    assert Shifted(start);
    DeferredTicksShifted(start, 8);
    DeferredTicksShifted(start, 9);
    var nine := DeferredTicks(start, 9);
    forall k | 0 <= k < |nine.entries| ensures nine.entries[k] != Some(Script[0]) {
      assert nine.entries[k] == EntryAt(k + 1);
      if k + 1 < |Script| { FirstEntryOnce(k + 1); }
    }
  }
}
