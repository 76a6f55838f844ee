/** web/src/lib/refs.ts: the reference grammar of the markdown texts.

      #123  @123  #KEY-123  KEY-123   a requirement
      [[Title]]  [[slug|alias]]       a document
      @handle                         a user

    Texts are sequences of code points. Everything is proved for any Unicode tables that agree with
    ASCII and with the few punctuation marks that the patterns name. */
module Refs {
  import opened Wrappers

  /** Which characters are letters and which are numbers, by the Unicode tables. */
  datatype Unicode = Unicode(letter: char -> bool, number: char -> bool) {
    predicate Word(c: char) { letter(c) || number(c) || c == '_' }
  }

  predicate Upper(c: char) { 'A' <= c <= 'Z' }
  predicate Lower(c: char) { 'a' <= c <= 'z' }
  predicate Digit(c: char) { '0' <= c <= '9' }

  /** JavaScript's \s, which is also what `trim` removes. */
  predicate Space(c: char) {
    || c == ' ' || '\t' <= c <= '\r' || c == '\U{A0}' || c == '\U{1680}' || '\U{2000}' <= c <= '\U{200A}'
    || c == '\U{2028}' || c == '\U{2029}' || c == '\U{202F}' || c == '\U{205F}' || c == '\U{3000}' || c == '\U{FEFF}'
  }

  /** The characters after which a completion may start: [\s([{>,;:!¡¿?]. */
  predicate Opening(c: char) {
    Space(c) || c in {'(', '[', '{', '>', ',', ';', ':', '!', '\U{A1}', '\U{BF}', '?'}
  }

  ghost predicate Agrees(u: Unicode) {
    && (forall c :: Upper(c) || Lower(c) ==> u.letter(c))
    && (forall c :: Digit(c) ==> u.number(c))
    && (forall c :: Opening(c) || c in {'#', '@', '.', '-', ']'} ==> !u.letter(c) && !u.number(c))
  }

  /** The character classes under a repetition operator. */
  datatype Class = TargetChar | AliasChar | KeyChar | DigitChar | HandleChar | QueryChar

  predicate In(u: Unicode, k: Class, c: char) {
    match k
    case TargetChar => c != ']' && c != '|' && c != '\n'
    case AliasChar => c != ']' && c != '\n'
    case KeyChar => Upper(c) || Digit(c)
    case DigitChar => Digit(c)
    case HandleChar => Upper(c) || Lower(c) || Digit(c) || c == '.' || c == '_' || c == '-'
    case QueryChar => u.letter(c) || u.number(c) || c == '.' || c == '_' || c == '-'
  }

  /** Where the longest run of a class from `i` on ends. */
  function Run(u: Unicode, k: Class, s: string, i: nat): (e: nat)
    requires i <= |s|
    ensures i <= e <= |s| && (forall x :: i <= x < e ==> In(u, k, s[x])) && (e < |s| ==> !In(u, k, s[e]))
    decreases |s| - i
  {
    if i < |s| && In(u, k, s[i]) then Run(u, k, s, i + 1) else i
  }

  /** No word character and no dash follows. */
  predicate Boundary(u: Unicode, s: string, i: nat) {
    i < |s| ==> !u.Word(s[i]) && s[i] != '-'
  }

  /** The same character twice, as in "[[" and "]]". */
  predicate Doubled(s: string, i: nat, c: char) {
    i + 2 <= |s| && s[i] == c && s[i + 1] == c
  }

  function TrimLeft(s: string): string {
    if s != "" && Space(s[0]) then TrimLeft(s[1..]) else s
  }

  function TrimRight(s: string): string {
    if s != "" && Space(s[|s| - 1]) then TrimRight(s[..|s| - 1]) else s
  }

  function Trim(s: string): string { TrimRight(TrimLeft(s)) }

  function LowerCase(s: string): string {
    seq(|s|, i requires 0 <= i < |s| => if Upper(s[i]) then s[i] - 'A' + 'a' else s[i])
  }

  /** What the handle-trimming loop leaves. */
  function TrimHandle(h: string): string {
    if h != "" && h[|h| - 1] in {'.', '_', '-'} then TrimHandle(h[..|h| - 1]) else h
  }

  // ----------------------------------------------------------------------- tokens

  datatype RefToken =
    | Plain(value: string)
    | Requirement(raw: string, key: string)
    | Wikilink(raw: string, target: string, alias: Option<string>)
    | Mention(raw: string, handle: string)

  function Raw(t: RefToken): string {
    if t.Plain? then t.value else t.raw
  }

  function Render(ts: seq<RefToken>): string {
    if ts == [] then "" else Raw(ts[0]) + Render(ts[1..])
  }

  /** A match of the pattern: it starts with a context character, which stays outside the reference,
      and for mentions it may end with punctuation that is handed back to the text. */
  datatype Match = Match(start: nat, prefixEnd: nat, end: nat, token: RefToken)

  /** A reference without its context: where it ends, and what it is. */
  datatype Body = Body(end: nat, token: RefToken)

  /** A body is a non-empty stretch of the text. All of it is the reference, except that a mention
      hands its trailing punctuation back. */
  ghost predicate Fits(s: string, i: nat, b: Body) {
    && i < b.end <= |s| && !b.token.Plain?
    && (if b.token.Mention? then
          var handle := TrimHandle(s[i + 1..b.end]);
          s[i] == '@' && handle != "" && b.token == Mention("@" + handle, LowerCase(handle))
        else Raw(b.token) == s[i..b.end])
  }

  // --------------------------------------------------------- the four alternatives

  /** Double brackets around a target and, after a bar, an alias. */
  function WikiBody(u: Unicode, s: string, i: nat): (r: Option<Body>)
    ensures r.Some? ==> Fits(s, i, r.value)
  {
    if !Doubled(s, i, '[') then None
    else
      var t := Run(u, TargetChar, s, i + 2);
      if t == i + 2 then None
      else if t < |s| && s[t] == '|' then
        var a := Run(u, AliasChar, s, t + 1);
        if Doubled(s, a, ']') then
          var alias := Trim(s[t + 1..a]);
          Some(Body(a + 2, Wikilink(s[i..a + 2], Trim(s[i + 2..t]), if alias == "" then None else Some(alias))))
        else None
      else if Doubled(s, t, ']') then Some(Body(t + 2, Wikilink(s[i..t + 2], Trim(s[i + 2..t]), None)))
      else None
  }

  /** Where the dash after a key is. */
  function Key(u: Unicode, s: string, i: nat): (r: Option<nat>)
    ensures r.Some? ==> i + 1 < r.value < |s|
  {
    if i < |s| && Upper(s[i]) then
      var e := Run(u, KeyChar, s, i + 1);
      if 1 <= e - (i + 1) <= 9 && e < |s| && s[e] == '-' then Some(e) else None
    else None
  }

  /** Up to nine digits, with no word character and no dash after them. */
  function Number(u: Unicode, s: string, i: nat): (r: Option<nat>)
    ensures r.Some? ==> i < r.value <= |s|
  {
    if i < |s| then
      var e := Run(u, DigitChar, s, i);
      if 1 <= e - i <= 9 && Boundary(u, s, e) then Some(e) else None
    else None
  }

  /** A hash or an at sign, a key and a dash if there are any, and a number. */
  function SigilBody(u: Unicode, s: string, i: nat): (r: Option<Body>)
    ensures r.Some? ==> Fits(s, i, r.value)
  {
    if i < |s| && (s[i] == '#' || s[i] == '@') then
      var dash := Key(u, s, i + 1);
      if dash.Some? && Number(u, s, dash.value + 1).Some? then
        var e := Number(u, s, dash.value + 1).value;
        Some(Body(e, Requirement(s[i..e], s[i + 1..e])))
      else if Number(u, s, i + 1).Some? then
        var e := Number(u, s, i + 1).value;
        Some(Body(e, Requirement(s[i..e], s[i + 1..e])))
      else None
    else None
  }

  /** A key of two to ten capitals and digits, a dash, and a number. */
  function BareBody(u: Unicode, s: string, i: nat): (r: Option<Body>)
    ensures r.Some? ==> Fits(s, i, r.value)
  {
    var dash := Key(u, s, i);
    if dash.Some? && Number(u, s, dash.value + 1).Some? then
      var e := Number(u, s, dash.value + 1).value;
      Some(Body(e, Requirement(s[i..e], s[i..e])))
    else None
  }

  /** An at sign and a handle of up to forty characters, trailing punctuation included. */
  function MentionBody(u: Unicode, s: string, i: nat): (r: Option<Body>)
    ensures r.Some? ==> Fits(s, i, r.value)
  {
    if i + 1 < |s| && s[i] == '@' && (Upper(s[i + 1]) || Lower(s[i + 1])) then
      var run := Run(u, HandleChar, s, i + 2);
      var e := if run <= i + 41 then run else i + 41;
      var handle := TrimHandle(s[i + 1..e]);
      TrimHandleKeepsFront(s[i + 1..e]);
      Some(Body(e, Mention("@" + handle, LowerCase(handle))))
    else None
  }

  lemma {:induction false} TrimHandleKeepsFront(h: string)
    ensures TrimHandle(h) <= h
    ensures h != "" && h[0] !in {'.', '_', '-'} ==> TrimHandle(h) != ""
    ensures TrimHandle(h) != "" ==> TrimHandle(h)[|TrimHandle(h)| - 1] !in {'.', '_', '-'}
  {
    if h != "" && h[|h| - 1] in {'.', '_', '-'} {
      TrimHandleKeepsFront(h[..|h| - 1]);
    }
  }

  /** Which alternative. */
  datatype Alt = Wiki | Sigil | Bare | At

  /** The order in which the pattern lists them. */
  const ALTERNATIVES: seq<Alt> := [Wiki, Sigil, Bare, At]

  function BodyOf(u: Unicode, alt: Alt, s: string, i: nat): (r: Option<Body>)
    ensures r.Some? ==> Fits(s, i, r.value)
  {
    match alt
    case Wiki => WikiBody(u, s, i)
    case Sigil => SigilBody(u, s, i)
    case Bare => BareBody(u, s, i)
    case At => MentionBody(u, s, i)
  }

  /** The context characters that an alternative rejects. */
  predicate Rejects(u: Unicode, alt: Alt, c: char) {
    match alt
    case Wiki => true
    case Sigil => u.Word(c) || c in {'/', '&', '#', '@'}
    case Bare => u.Word(c) || c in {'/', '#', '@', '.', '-'}
    case At => u.Word(c) || c in {'/', '@', '.'}
  }

  /** A match starts at most one context character before its body. */
  ghost predicate Matches(s: string, i: nat, m: Match) {
    m.start == i <= m.prefixEnd <= i + 1 && Fits(s, m.prefixEnd, Body(m.end, m.token))
  }

  /** An alternative at `i`: right there, where no context is needed, or after a context character. */
  function AltAt(u: Unicode, alt: Alt, s: string, i: nat): (r: Option<Match>)
    ensures r.Some? ==> Matches(s, i, r.value)
  {
    if (alt == Wiki || i == 0) && BodyOf(u, alt, s, i).Some? then
      var b := BodyOf(u, alt, s, i).value;
      Some(Match(i, i, b.end, b.token))
    else if i < |s| && !Rejects(u, alt, s[i]) && BodyOf(u, alt, s, i + 1).Some? then
      var b := BodyOf(u, alt, s, i + 1).value;
      Some(Match(i, i + 1, b.end, b.token))
    else None
  }

  function FirstOf(u: Unicode, alts: seq<Alt>, s: string, i: nat): (r: Option<Match>)
    ensures r.Some? ==> Matches(s, i, r.value)
  {
    if alts == [] then None
    else if AltAt(u, alts[0], s, i).Some? then AltAt(u, alts[0], s, i)
    else FirstOf(u, alts[1..], s, i)
  }

  /** The pattern at `i`. */
  function MatchAt(u: Unicode, s: string, i: nat): (r: Option<Match>)
    ensures r.Some? ==> Matches(s, i, r.value)
  {
    FirstOf(u, ALTERNATIVES, s, i)
  }

  /** The leftmost match from `i` on. */
  function Next(u: Unicode, s: string, i: nat): (r: Option<Match>)
    requires i <= |s|
    ensures r.Some? ==> i <= r.value.start && Matches(s, r.value.start, r.value)
    decreases |s| - i
  {
    if i == |s| then None
    else if MatchAt(u, s, i).Some? then MatchAt(u, s, i)
    else Next(u, s, i + 1)
  }

  // ----------------------------------------------------------------- tokenizeRefs

  /** Appending text: nothing if it is empty, and into the last token if that is text already. */
  function Push(out: seq<RefToken>, value: string): seq<RefToken> {
    if value == "" then out
    else if out != [] && out[|out| - 1].Plain? then out[..|out| - 1] + [Plain(out[|out| - 1].value + value)]
    else out + [Plain(value)]
  }

  /** The punctuation that a mention took beyond its handle. */
  function Trailing(s: string, m: Match): string
    requires Matches(s, m.start, m)
  {
    if m.token.Mention? then
      TrimHandleKeepsFront(s[m.prefixEnd + 1..m.end]);
      s[m.prefixEnd + |m.token.raw|..m.end]
    else ""
  }

  function Add(out: seq<RefToken>, t: RefToken): seq<RefToken> {
    if t.Plain? then Push(out, t.value) else out + [t]
  }

  function AddAll(out: seq<RefToken>, ts: seq<RefToken>): seq<RefToken>
    decreases |ts|
  {
    if ts == [] then out else AddAll(Add(out, ts[0]), ts[1..])
  }

  /** Matches that follow each other in the text from `last` on. */
  ghost predicate Chain(s: string, last: nat, ms: seq<Match>)
    decreases |ms|
  {
    ms != [] ==> last <= ms[0].start && Matches(s, ms[0].start, ms[0]) && Chain(s, ms[0].end, ms[1..])
  }

  /** `matchAll` from `last` on: each search continues where the previous match ended. */
  function Scan(u: Unicode, s: string, last: nat): (ms: seq<Match>)
    requires last <= |s|
    ensures Chain(s, last, ms)
    decreases |s| - last
  {
    var next := Next(u, s, last);
    if next == None then [] else [next.value] + Scan(u, s, next.value.end)
  }

  /** The text from `last` on, cut at the matches: the text before each match with its context, the
      reference, and what the match took beyond the reference. */
  function Pieces(s: string, last: nat, ms: seq<Match>): seq<RefToken>
    requires last <= |s| && Chain(s, last, ms)
    decreases |ms|
  {
    if ms == [] then [Plain(s[last..])]
    else [Plain(s[last..ms[0].prefixEnd]), ms[0].token, Plain(Trailing(s, ms[0]))] + Pieces(s, ms[0].end, ms[1..])
  }

  function Tokens(u: Unicode, s: string): seq<RefToken> { AddAll([], Pieces(s, 0, Scan(u, s, 0))) }

  lemma AddThree(out: seq<RefToken>, x: RefToken, y: RefToken, z: RefToken, rest: seq<RefToken>)
    ensures AddAll(out, [x, y, z] + rest) == AddAll(Add(Add(Add(out, x), y), z), rest)
  {
    var xyz, yz, zs := [x, y, z] + rest, [y, z] + rest, [z] + rest;
    assert xyz[1..] == yz && yz[1..] == zs && zs[1..] == rest;
    assert AddAll(out, xyz) == AddAll(Add(out, x), yz);
    assert AddAll(Add(out, x), yz) == AddAll(Add(Add(out, x), y), zs);
  }

  method TokenizeRefs(u: Unicode, text: string) returns (out: seq<RefToken>)
    ensures out == Tokens(u, text)
  {
    out := [];
    var last := 0;
    var next := Next(u, text, last);
    while next.Some?
      invariant last <= |text| && next == Next(u, text, last)
      invariant AddAll(out, Pieces(text, last, Scan(u, text, last))) == Tokens(u, text)
      decreases |text| - last
    {
      var m := next.value;
      ghost var rest := Scan(u, text, m.end);
      assert Scan(u, text, last) == [m] + rest && ([m] + rest)[1..] == rest;
      AddThree(out, Plain(text[last..m.prefixEnd]), m.token, Plain(Trailing(text, m)), Pieces(text, m.end, rest));
      out := Push(out, text[last..m.prefixEnd]);
      if m.token.Mention? {
        var handle, trailing := SplitHandle(text[m.prefixEnd + 1..m.end]);
        HandleIsToken(text, m, handle, trailing);
        out := out + [Mention("@" + handle, LowerCase(handle))];
        out := Push(out, trailing);
      } else {
        out := out + [m.token];
      }
      last := m.end;
      next := Next(u, text, last);
    }
    out := Push(out, text[last..]);
  }

  /** What the trimming loop finds is what the match stands for. */
  lemma HandleIsToken(s: string, m: Match, handle: string, trailing: string)
    requires Matches(s, m.start, m) && m.token.Mention?
    requires handle + trailing == s[m.prefixEnd + 1..m.end] && handle == TrimHandle(s[m.prefixEnd + 1..m.end])
    ensures m.token == Mention("@" + handle, LowerCase(handle)) && trailing == Trailing(s, m)
  {
    assert trailing == s[m.prefixEnd + 1..m.end][|handle|..];
  }

  /** The trimming loop of a mention. */
  method SplitHandle(matched: string) returns (handle: string, trailing: string)
    ensures handle == TrimHandle(matched) && handle + trailing == matched
  {
    handle, trailing := matched, "";
    while handle != "" && handle[|handle| - 1] in {'.', '_', '-'}
      invariant handle + trailing == matched && TrimHandle(handle) == TrimHandle(matched)
      decreases |handle|
    {
      trailing := [handle[|handle| - 1]] + trailing;
      handle := handle[..|handle| - 1];
    }
  }

  // ------------------------------------------- the matcher against the expressions

  /** s[i..e] is a number, described without the matcher. */
  ghost predicate NumberSpan(u: Unicode, s: string, i: nat, e: nat) {
    && i < e <= |s| && e - i <= 9 && (forall k :: i <= k < e ==> '0' <= s[k] <= '9')
    && (e < |s| ==> !u.letter(s[e]) && !u.number(s[e]) && s[e] != '_' && s[e] != '-')
  }

  /** s[i..d] is a key, and a dash follows. */
  ghost predicate KeySpan(s: string, i: nat, d: nat) {
    && i + 1 < d < |s| && d - (i + 1) <= 9 && 'A' <= s[i] <= 'Z' && s[d] == '-'
    && forall k :: i < k < d ==> 'A' <= s[k] <= 'Z' || '0' <= s[k] <= '9'
  }

  ghost predicate KeyNumberSpan(u: Unicode, s: string, i: nat, e: nat) {
    exists d: nat :: KeySpan(s, i, d) && NumberSpan(u, s, d + 1, e)
  }

  ghost predicate SigilSpan(u: Unicode, s: string, i: nat, e: nat) {
    i < |s| && s[i] in {'#', '@'} && (NumberSpan(u, s, i + 1, e) || KeyNumberSpan(u, s, i + 1, e))
  }

  ghost predicate MentionSpan(s: string, i: nat, e: nat) {
    && i + 1 < e <= |s| && e <= i + 41 && s[i] == '@' && ('A' <= s[i + 1] <= 'Z' || 'a' <= s[i + 1] <= 'z')
    && forall k :: i + 2 <= k < e ==>
         'A' <= s[k] <= 'Z' || 'a' <= s[k] <= 'z' || '0' <= s[k] <= '9' || s[k] in {'.', '_', '-'}
  }

  /** The wikilink expression accepts s[i..g + 2]: the first of its characters that is a bracket closes it,
      it stays on one line, and it does not begin with its separator. */
  ghost predicate WikiSpan(s: string, i: nat, g: nat) {
    && i + 2 < g && Doubled(s, i, '[') && Doubled(s, g, ']') && s[i + 2] != '|'
    && forall k :: i + 2 <= k < g ==> s[k] != ']' && s[k] != '\n'
  }

  lemma {:induction false} RunIs(u: Unicode, k: Class, s: string, i: nat, e: nat)
    requires i <= e <= |s| && (forall x :: i <= x < e ==> In(u, k, s[x])) && (e < |s| ==> !In(u, k, s[e]))
    ensures Run(u, k, s, i) == e
    decreases |s| - i
  {
    if i < e { RunIs(u, k, s, i + 1, e); }
  }

  lemma NumberIff(u: Unicode, s: string, i: nat, e: nat)
    requires Agrees(u)
    ensures Number(u, s, i) == Some(e) <==> NumberSpan(u, s, i, e)
  {
    if NumberSpan(u, s, i, e) {
      RunIs(u, DigitChar, s, i, e);
    }
  }

  lemma KeyIff(u: Unicode, s: string, i: nat, d: nat)
    ensures Key(u, s, i) == Some(d) <==> KeySpan(s, i, d)
  {
    if KeySpan(s, i, d) {
      RunIs(u, KeyChar, s, i + 1, d);
    }
  }

  lemma KeyNumberIff(u: Unicode, s: string, i: nat, e: nat)
    requires Agrees(u)
    ensures Key(u, s, i).Some? && Number(u, s, Key(u, s, i).value + 1) == Some(e) <==> KeyNumberSpan(u, s, i, e)
  {
    if Key(u, s, i).Some? {
      var d := Key(u, s, i).value;
      KeyIff(u, s, i, d);
      NumberIff(u, s, d + 1, e);
    }
    if KeyNumberSpan(u, s, i, e) {
      var d: nat :| KeySpan(s, i, d) && NumberSpan(u, s, d + 1, e);
      KeyIff(u, s, i, d);
      NumberIff(u, s, d + 1, e);
    }
  }

  /** However the optional groups and the counted repetitions are explored, there is one way to match. */
  lemma SigilIff(u: Unicode, s: string, i: nat, e: nat)
    requires Agrees(u)
    ensures SigilBody(u, s, i).Some? && SigilBody(u, s, i).value.end == e <==> SigilSpan(u, s, i, e)
  {
    KeyNumberIff(u, s, i + 1, e);
    NumberIff(u, s, i + 1, e);
    if Key(u, s, i + 1).Some? { KeyExcludesNumber(u, s, i + 1); }
  }

  lemma KeyExcludesNumber(u: Unicode, s: string, i: nat)
    requires Key(u, s, i).Some?
    ensures Number(u, s, i) == None
  {
    RunIs(u, DigitChar, s, i, i);
  }

  lemma BareIff(u: Unicode, s: string, i: nat, e: nat)
    requires Agrees(u)
    ensures BareBody(u, s, i).Some? && BareBody(u, s, i).value.end == e <==> KeyNumberSpan(u, s, i, e)
  {
    KeyNumberIff(u, s, i, e);
  }

  /** A mention is greedy: it takes the longest stretch that the expression accepts. */
  lemma MentionIff(u: Unicode, s: string, i: nat, e: nat)
    ensures MentionBody(u, s, i).Some? && MentionBody(u, s, i).value.end == e
        <==> MentionSpan(s, i, e) && forall longer: nat :: MentionSpan(s, i, longer) ==> longer <= e
  {
    if i + 1 < |s| && s[i] == '@' && (Upper(s[i + 1]) || Lower(s[i + 1])) {
      var run := Run(u, HandleChar, s, i + 2);
      var end := if run <= i + 41 then run else i + 41;
      assert MentionSpan(s, i, end) by {
        forall k | i + 2 <= k < end ensures In(u, HandleChar, s[k]) {}
      }
      forall longer: nat | MentionSpan(s, i, longer) ensures longer <= end {}
    }
  }

  lemma WikiIff(u: Unicode, s: string, i: nat, g: nat)
    ensures WikiBody(u, s, i).Some? && WikiBody(u, s, i).value.end == g + 2 <==> WikiSpan(s, i, g)
  {
    hide Fits, Trim;
    if Doubled(s, i, '[') {
      var t := Run(u, TargetChar, s, i + 2);
      if WikiSpan(s, i, g) {
        if t < g { RunIs(u, AliasChar, s, t + 1, g); }
      }
    }
  }

  // ------------------------------------------------------- lossless and normalized

  lemma {:induction false} RenderAppend(x: seq<RefToken>, y: seq<RefToken>)
    ensures Render(x + y) == Render(x) + Render(y)
  {
    if x == [] {
      assert x + y == y;
    } else {
      RenderAppend(x[1..], y);
      assert (x + y)[1..] == x[1..] + y;
      Assoc(Raw(x[0]), Render(x[1..]), Render(y));
    }
  }

  lemma Assoc(a: string, b: string, c: string)
    ensures a + b + c == a + (b + c)
  {}

  lemma RenderOne(t: RefToken)
    ensures Render([t]) == Raw(t)
  {
    assert [t][1..] == [];
  }

  lemma AddRenders(out: seq<RefToken>, t: RefToken)
    ensures Render(Add(out, t)) == Render(out) + Raw(t)
  {
    RenderOne(t);
    RenderAppend(out, [t]);
    if t.Plain? && out != [] && out[|out| - 1].Plain? {
      MergeRenders(out[..|out| - 1], out[|out| - 1].value, t.value);
      assert out == out[..|out| - 1] + [Plain(out[|out| - 1].value)];
    }
  }

  lemma MergeRenders(front: seq<RefToken>, x: string, y: string)
    ensures Render(front + [Plain(x + y)]) == Render(front + [Plain(x)]) + y
  {
    RenderOne(Plain(x));
    RenderOne(Plain(x + y));
    RenderAppend(front, [Plain(x)]);
    RenderAppend(front, [Plain(x + y)]);
  }

  lemma {:induction false} AddAllRenders(out: seq<RefToken>, ts: seq<RefToken>)
    ensures Render(AddAll(out, ts)) == Render(out) + Render(ts)
    decreases |ts|
  {
    if ts != [] {
      AddRenders(out, ts[0]);
      AddAllRenders(Add(out, ts[0]), ts[1..]);
    }
  }

  /** A match is its context, its reference and its trailing punctuation. */
  lemma MatchSplits(s: string, last: nat, m: Match)
    requires last <= m.start && Matches(s, m.start, m)
    ensures s[last..m.end] == s[last..m.prefixEnd] + Raw(m.token) + Trailing(s, m)
  {
    if m.token.Mention? {
      var p, matched := m.prefixEnd, s[m.prefixEnd + 1..m.end];
      TrimHandleKeepsFront(matched);
      var h := |TrimHandle(matched)|;
      assert matched[..h] == TrimHandle(matched) && matched[..h] == s[p + 1..p + 1 + h];
      SplitSlice(s, p, p + 1, p + 1 + h);
      assert s[p..p + 1] == "@";
    }
    SplitSlice(s, last, m.prefixEnd, m.end);
    SplitSlice(s, m.prefixEnd, m.prefixEnd + |Raw(m.token)|, m.end);
  }

  lemma SplitSlice(s: string, i: nat, j: nat, k: nat)
    requires i <= j <= k <= |s|
    ensures s[i..k] == s[i..j] + s[j..k]
  {}

  lemma {:induction false} PiecesRender(s: string, last: nat, ms: seq<Match>)
    requires last <= |s| && Chain(s, last, ms)
    ensures Render(Pieces(s, last, ms)) == s[last..]
    decreases |ms|
  {
    if ms == [] {
      RenderOne(Plain(s[last..]));
    } else {
      PiecesRender(s, ms[0].end, ms[1..]);
      PieceRenders(s, last, ms[0], Pieces(s, ms[0].end, ms[1..]));
      SplitSuffix(s, last, ms[0].end);
    }
  }

  lemma SplitSuffix(s: string, i: nat, j: nat)
    requires i <= j <= |s|
    ensures s[i..] == s[i..j] + s[j..]
  {}

  lemma PieceRenders(s: string, last: nat, m: Match, rest: seq<RefToken>)
    requires last <= m.start && Matches(s, m.start, m)
    ensures Render([Plain(s[last..m.prefixEnd]), m.token, Plain(Trailing(s, m))] + rest)
        == s[last..m.end] + Render(rest)
  {
    RenderThree(Plain(s[last..m.prefixEnd]), m.token, Plain(Trailing(s, m)), rest);
    MatchSplits(s, last, m);
  }

  lemma RenderThree(x: RefToken, y: RefToken, z: RefToken, rest: seq<RefToken>)
    ensures Render([x, y, z] + rest) == Raw(x) + Raw(y) + Raw(z) + Render(rest)
  {
    var xyz, yz, zs := [x, y, z] + rest, [y, z] + rest, [z] + rest;
    assert xyz[1..] == yz && yz[1..] == zs && zs[1..] == rest;
    assert Render(xyz) == Raw(x) + Render(yz);
    assert Render(yz) == Raw(y) + Render(zs);
  }

  /** No empty text, and no two texts side by side. */
  ghost predicate Normal(ts: seq<RefToken>) {
    && (forall k :: 0 <= k < |ts| && ts[k].Plain? ==> ts[k].value != "")
    && (forall k :: 0 <= k < |ts| - 1 && ts[k].Plain? ==> !ts[k + 1].Plain?)
  }

  /** `t` is what is left of `s` when the white space at both ends goes, and only that. */
  ghost predicate Trimmed(s: string, t: string) {
    exists i: nat, j: nat :: Stretch(s, i, j) && t == s[i..j]
  }

  ghost predicate Stretch(s: string, i: nat, j: nat) {
    && i <= j <= |s| && (forall k :: 0 <= k < i || j <= k < |s| ==> White(s[k] as int))
    && (i < j ==> !White(s[i] as int) && !White(s[j - 1] as int))
  }

  /** White space and line ends, by the ECMAScript standard (sections 12.2 and 12.3). */
  ghost predicate White(c: int) {
    || 9 <= c <= 13 || c == 32 || c == 160 || c == 5760 || 8192 <= c <= 8202 || c == 8232 || c == 8233 || c == 8239
    || c == 8287 || c == 12288 || c == 65279
  }

  lemma {:induction false} TrimLeftIs(s: string, i: nat)
    requires i <= |s| && (forall k :: 0 <= k < i ==> Space(s[k])) && (i < |s| ==> !Space(s[i]))
    ensures TrimLeft(s) == s[i..]
  {
    if i > 0 { TrimLeftIs(s[1..], i - 1); }
  }

  lemma {:induction false} TrimRightIs(s: string, j: nat)
    requires j <= |s| && (forall k :: j <= k < |s| ==> Space(s[k])) && (j > 0 ==> !Space(s[j - 1]))
    ensures TrimRight(s) == s[..j]
  {
    if j < |s| {
      TrimRightIs(s[..|s| - 1], j);
      assert s[..|s| - 1][..j] == s[..j];
    }
  }

  lemma {:induction false} FirstLetter(s: string) returns (i: nat)
    ensures i <= |s| && (forall k :: 0 <= k < i ==> Space(s[k])) && (i < |s| ==> !Space(s[i]))
  {
    i := 0;
    while i < |s| && Space(s[i])
      invariant i <= |s| && forall k :: 0 <= k < i ==> Space(s[k])
    {
      i := i + 1;
    }
  }

  lemma LastLetter(s: string, i: nat) returns (j: nat)
    requires i <= |s| && (i < |s| ==> !Space(s[i]))
    ensures i <= j <= |s| && (forall k :: j <= k < |s| ==> Space(s[k])) && (i < j ==> !Space(s[j - 1]))
    ensures i < |s| ==> i < j
  {
    j := |s|;
    while j > i && Space(s[j - 1])
      invariant i <= j <= |s| && (forall k :: j <= k < |s| ==> Space(s[k])) && (i < |s| ==> i < j)
    {
      j := j - 1;
    }
  }

  /** Trimming takes the white space at both ends, and nothing but that. */
  lemma TrimIff(s: string, t: string)
    ensures Trimmed(s, t) <==> t == Trim(s)
  {
    if Trimmed(s, t) {
      var i: nat, j: nat :| Stretch(s, i, j) && t == s[i..j];
      StretchIsTrim(s, i, j);
    } else {
      var i := FirstLetter(s);
      var j := LastLetter(s, i);
      assert Stretch(s, i, j);
      StretchIsTrim(s, i, j);
    }
  }

  lemma StretchIsTrim(s: string, i: nat, j: nat)
    requires Stretch(s, i, j)
    ensures Trim(s) == s[i..j]
  {
    if i < j {
      TrimLeftIs(s, i);
      TrimRightIs(s[i..], j - i);
      assert s[i..][..j - i] == s[i..j];
    } else {
      TrimLeftIs(s, |s|);
    }
  }

  /** What a wikilink means: the target stands before the first bar, if there is one, and the alias after it. */
  ghost predicate LinkMeans(raw: string, bar: nat, target: string, alias: Option<string>) {
    && 2 < bar <= |raw| - 2 && raw[0] == raw[1] == '[' && raw[|raw| - 2] == raw[|raw| - 1] == ']'
    && (forall k :: 2 <= k < |raw| - 2 ==> raw[k] != ']' && raw[k] != '\n')
    && (forall k :: 2 <= k < bar ==> raw[k] != '|')
    && Trimmed(raw[2..bar], target)
    && (bar == |raw| - 2 ==> alias == None)
    && (bar < |raw| - 2 ==>
          && raw[bar] == '|'
          && Trimmed(raw[bar + 1..|raw| - 2], if alias.Some? then alias.value else "")
          && alias != Some(""))
  }

  /** The same letter, small. */
  predicate Small(c: char, d: char) {
    if 'A' <= c <= 'Z' then d as int == c as int + 32 else d == c
  }

  /** A reference token carries what its raw text says. */
  ghost predicate Faithful(t: RefToken) {
    match t
    case Plain(_) => true
    case Requirement(raw, key) => raw != "" && key == if raw[0] in {'#', '@'} then raw[1..] else raw
    case Wikilink(raw, target, alias) => exists bar: nat :: LinkMeans(raw, bar, target, alias)
    case Mention(raw, handle) =>
      && |raw| == |handle| + 1 >= 2 && raw[0] == '@' && raw[|raw| - 1] !in {'.', '_', '-'}
      && forall k :: 0 <= k < |handle| ==> Small(raw[k + 1], handle[k])
  }

  /** A link in a text means what its raw text means. */
  lemma LinkInText(s: string, i: nat, t: nat, e: nat, target: string, alias: Option<string>)
    requires i + 2 < t <= e - 2 && WikiSpan(s, i, e - 2) && (forall k :: i + 2 <= k < t ==> s[k] != '|')
    requires target == Trim(s[i + 2..t])
    requires if t == e - 2 then alias == None else
               s[t] == '|' && var y := Trim(s[t + 1..e - 2]); alias == if y == "" then None else Some(y)
    ensures LinkMeans(s[i..e], t - i, target, alias)
  {
    hide Trim, Trimmed;
    var raw := s[i..e];
    assert forall k :: 0 <= k < |raw| ==> raw[k] == s[i + k];
    assert raw[2..t - i] == s[i + 2..t];
    TrimIff(s[i + 2..t], target);
    if t < e - 2 {
      assert raw[t - i + 1..|raw| - 2] == s[t + 1..e - 2];
      TrimIff(s[t + 1..e - 2], Trim(s[t + 1..e - 2]));
    }
  }

  lemma WikiIsFaithful(u: Unicode, s: string, i: nat)
    requires WikiBody(u, s, i).Some?
    ensures Faithful(WikiBody(u, s, i).value.token)
  {
    hide Trim, LinkMeans, WikiSpan;
    var b := WikiBody(u, s, i).value;
    var t := Run(u, TargetChar, s, i + 2);
    WikiIff(u, s, i, b.end - 2);
    assert forall k :: i + 2 <= k < t ==> In(u, TargetChar, s[k]);
    LinkInText(s, i, t, b.end, b.token.target, b.token.alias);
  }

  /** A wikilink without a bar has a target and no alias. */
  lemma PlainLinkMeans(x: string, target: string, alias: Option<string>)
    requires x != "" && ']' !in x && '|' !in x && '\n' !in x
    requires Faithful(Wikilink("[[" + x + "]]", target, alias))
    ensures target == Trim(x) && alias == None
  {
    hide Trim, Trimmed;
    var raw := "[[" + x + "]]";
    var bar: nat :| LinkMeans(raw, bar, target, alias);
    assert raw[2..|raw| - 2] == x;
    forall k | 2 <= k < |raw| - 2 ensures raw[k] != '|' { assert raw[k] == x[k - 2]; }
    TrimIff(x, target);
  }

  /** With a bar the target is what stands before it, and the alias what stands after it, if anything does. */
  lemma BarredLinkMeans(x: string, y: string, target: string, alias: Option<string>)
    requires x != "" && ']' !in x && '|' !in x && '\n' !in x && ']' !in y && '\n' !in y
    requires Faithful(Wikilink("[[" + x + "|" + y + "]]", target, alias))
    ensures target == Trim(x) && alias == if Trim(y) == "" then None else Some(Trim(y))
  {
    hide Trim, Trimmed;
    var raw := "[[" + x + "|" + y + "]]";
    var bar: nat :| LinkMeans(raw, bar, target, alias);
    BarStands(x, y, raw, bar);
    TrimIff(x, target);
    TrimIff(y, if alias.Some? then alias.value else "");
  }

  lemma BarStands(x: string, y: string, raw: string, bar: nat)
    requires raw == "[[" + x + "|" + y + "]]" && '|' !in x && 2 < bar <= |raw| - 2
    requires (forall k :: 2 <= k < bar ==> raw[k] != '|') && (bar < |raw| - 2 ==> raw[bar] == '|')
    ensures bar == |x| + 2 < |raw| - 2 && raw[2..bar] == x && raw[bar + 1..|raw| - 2] == y
  {
    assert raw[|x| + 2] == '|';
    forall k | 2 <= k < |x| + 2 ensures raw[k] != '|' { assert raw[k] == x[k - 2]; }
    assert raw == ("[[" + x) + "|" + (y + "]]");
  }

  lemma BodyIsFaithful(u: Unicode, alt: Alt, s: string, i: nat)
    requires BodyOf(u, alt, s, i).Some?
    ensures Faithful(BodyOf(u, alt, s, i).value.token)
  {
    var b := BodyOf(u, alt, s, i).value;
    match alt
    case Wiki => WikiIsFaithful(u, s, i);
    case Sigil =>
    case Bare =>
    case At => TrimHandleKeepsFront(s[i + 1..b.end]);
  }

  lemma AltIsFaithful(u: Unicode, alt: Alt, s: string, i: nat)
    requires AltAt(u, alt, s, i).Some?
    ensures Faithful(AltAt(u, alt, s, i).value.token)
  {
    hide BodyOf, Faithful, Fits, Rejects;
    if BodyOf(u, alt, s, i).Some? { BodyIsFaithful(u, alt, s, i); }
    if BodyOf(u, alt, s, i + 1).Some? { BodyIsFaithful(u, alt, s, i + 1); }
  }

  lemma {:induction false} FirstOfIsFaithful(u: Unicode, alts: seq<Alt>, s: string, i: nat)
    requires FirstOf(u, alts, s, i).Some?
    ensures Faithful(FirstOf(u, alts, s, i).value.token)
  {
    if AltAt(u, alts[0], s, i).Some? {
      AltIsFaithful(u, alts[0], s, i);
    } else {
      FirstOfIsFaithful(u, alts[1..], s, i);
    }
  }

  lemma {:induction false} NextIsMatch(u: Unicode, s: string, i: nat)
    requires i <= |s|
    ensures Next(u, s, i).Some? ==> Next(u, s, i) == MatchAt(u, s, Next(u, s, i).value.start)
    ensures Next(u, s, i).Some? ==> forall k :: i <= k < Next(u, s, i).value.start ==> MatchAt(u, s, k) == None
    ensures Next(u, s, i) == None ==> forall k :: i <= k < |s| ==> MatchAt(u, s, k) == None
    decreases |s| - i
  {
    if i < |s| && MatchAt(u, s, i) == None { NextIsMatch(u, s, i + 1); }
  }

  lemma {:induction false} ScanIsMatched(u: Unicode, s: string, last: nat, m: Match)
    requires last <= |s| && m in Scan(u, s, last)
    ensures last <= m.start && MatchAt(u, s, m.start) == Some(m)
    decreases |s| - last
  {
    NextIsMatch(u, s, last);
    var first := Next(u, s, last).value;
    if m != first { ScanIsMatched(u, s, first.end, m); }
  }

  lemma {:induction false} PiecesAreFaithful(s: string, last: nat, ms: seq<Match>)
    requires last <= |s| && Chain(s, last, ms) && forall m <- ms :: Faithful(m.token)
    ensures forall t <- Pieces(s, last, ms) :: Faithful(t)
    decreases |ms|
  {
    if ms != [] { PiecesAreFaithful(s, ms[0].end, ms[1..]); }
  }

  lemma AddIsNormal(out: seq<RefToken>, t: RefToken)
    requires Normal(out) && Faithful(t) && forall x <- out :: Faithful(x)
    ensures Normal(Add(out, t)) && forall x <- Add(out, t) :: Faithful(x)
  {}

  lemma {:induction false} AddAllIsNormal(out: seq<RefToken>, ts: seq<RefToken>)
    requires Normal(out) && (forall x <- out :: Faithful(x)) && (forall t <- ts :: Faithful(t))
    ensures Normal(AddAll(out, ts)) && forall t <- AddAll(out, ts) :: Faithful(t)
    decreases |ts|
  {
    if ts != [] {
      AddIsNormal(out, ts[0]);
      AddAllIsNormal(Add(out, ts[0]), ts[1..]);
    }
  }

  /** Tokenizing loses nothing, and its output is in normal form. */
  lemma TokenizingIsLossless(u: Unicode, s: string)
    ensures Render(Tokens(u, s)) == s
    ensures Normal(Tokens(u, s)) && forall t <- Tokens(u, s) :: Faithful(t)
  {
    var ms := Scan(u, s, 0);
    PiecesRender(s, 0, ms);
    AddAllRenders([], Pieces(s, 0, ms));
    forall m | m in ms ensures Faithful(m.token) {
      ScanIsMatched(u, s, 0, m);
      FirstOfIsFaithful(u, ALTERNATIVES, s, m.start);
    }
    PiecesAreFaithful(s, 0, ms);
    AddAllIsNormal([], Pieces(s, 0, ms));
  }
}
