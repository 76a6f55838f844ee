/** web/src/components/markdown/remarkRefs.ts: turns the references inside the text of a markdown tree
    into links. The tree is a value here; the original assigns `children` in place. */
module RemarkRefs {
  import opened Wrappers
  import opened Refs

  /** Nodes of a markdown tree have a value or children. */
  datatype MdNode =
    | Literal(kind: string, value: string)
    | Parent(kind: string, url: Option<string>, children: seq<MdNode>)

  /** Node types whose contents are left alone. */
  const SKIP := {"code", "inlineCode", "link", "linkReference", "definition", "html", "image"}

  function TextNode(value: string): MdNode { Literal("text", value) }

  function LinkNode(url: string, text: string): MdNode { Parent("link", Some(url), [TextNode(text)]) }

  /** `encode` is encodeURIComponent. */
  function FromToken(t: RefToken, encode: string -> string): MdNode {
    match t
    case Plain(value) => TextNode(value)
    case Requirement(raw, key) => LinkNode("qg-ref:requirement:" + encode(key), raw)
    case Wikilink(raw, target, alias) =>
      LinkNode("qg-ref:wikilink:" + encode(target), if alias.Some? then alias.value else target)
    case Mention(raw, handle) => LinkNode("qg-ref:user:" + encode(handle), raw)
  }

  function FromTokens(ts: seq<RefToken>, encode: string -> string): seq<MdNode> {
    if ts == [] then [] else [FromToken(ts[0], encode)] + FromTokens(ts[1..], encode)
  }

  /** A child that is tokenized: a text node with text in it. */
  predicate IsText(n: MdNode) { n.Literal? && n.kind == "text" && n.value != "" }

  function FromText(u: Unicode, n: MdNode, encode: string -> string): seq<MdNode>
    requires IsText(n)
  {
    var ts := Tokens(u, n.value);
    if |ts| == 1 && ts[0].Plain? then [n] else FromTokens(ts, encode)
  }

  function Walk(u: Unicode, n: MdNode, encode: string -> string): MdNode {
    if n.Literal? || n.kind in SKIP then n
    else n.(children := WalkAll(u, n.children, encode))
  }

  function WalkAll(u: Unicode, ns: seq<MdNode>, encode: string -> string): seq<MdNode> {
    if ns == [] then []
    else (if IsText(ns[0]) then FromText(u, ns[0], encode) else [Walk(u, ns[0], encode)]) + WalkAll(u, ns[1..], encode)
  }

  /** What a reader sees: the values of all nodes, in order. */
  function Visible(n: MdNode): string {
    if n.Literal? then n.value else VisibleAll(n.children)
  }

  function VisibleAll(ns: seq<MdNode>): string {
    if ns == [] then "" else Visible(ns[0]) + VisibleAll(ns[1..])
  }

  /** A text with a wikilink somewhere in the part of the tree that is walked. */
  predicate HasWikilink(u: Unicode, n: MdNode) {
    IsOpen(n) && AnyWikilink(u, n.children)
  }

  predicate AnyWikilink(u: Unicode, ns: seq<MdNode>) {
    ns != [] &&
    ((if IsText(ns[0]) then exists t <- Tokens(u, ns[0].value) :: t.Wikilink? else HasWikilink(u, ns[0]))
     || AnyWikilink(u, ns[1..]))
  }

  /** Neither code, in any form, nor a link, a definition, HTML or an image. */
  predicate IsOpen(n: MdNode) {
    && n.Parent? && n.kind != "code" && n.kind != "inlineCode" && n.kind != "link" && n.kind != "linkReference"
    && n.kind != "definition" && n.kind != "html" && n.kind != "image"
  }

  /** The same for references of any kind. */
  predicate HasReference(u: Unicode, n: MdNode) {
    IsOpen(n) && AnyReference(u, n.children)
  }

  predicate AnyReference(u: Unicode, ns: seq<MdNode>) {
    ns != [] &&
    ((match ns[0]
      case Literal(kind, value) => kind == "text" && exists t <- Tokens(u, value) :: !t.Plain?
      case Parent(_, _, _) => HasReference(u, ns[0]))
     || AnyReference(u, ns[1..]))
  }

  lemma {:induction false} VisibleAppend(x: seq<MdNode>, y: seq<MdNode>)
    ensures VisibleAll(x + y) == VisibleAll(x) + VisibleAll(y)
  {
    if x == [] {
      assert x + y == y;
    } else {
      VisibleAppend(x[1..], y);
      assert (x + y)[1..] == x[1..] + y;
      Assoc(Visible(x[0]), VisibleAll(x[1..]), VisibleAll(y));
    }
  }

  lemma VisibleOne(n: MdNode)
    ensures VisibleAll([n]) == Visible(n)
  {
    assert [n][1..] == [];
  }

  /** A link shows the raw reference, except that a wikilink shows its title or alias only. */
  lemma TokenIsVisible(t: RefToken, encode: string -> string)
    requires Faithful(t)
    ensures t.Wikilink? ==> |Visible(FromToken(t, encode))| < |Raw(t)|
    ensures !t.Wikilink? ==> Visible(FromToken(t, encode)) == Raw(t)
  {
    if !t.Plain? { VisibleOne(FromToken(t, encode).children[0]); }
  }

  /** What happens to the visible text: it stays, or it gets shorter. */
  ghost predicate Kept(before: string, after: string, same: bool) {
    if same then after == before else |after| < |before|
  }

  lemma KeptTogether(b1: string, a1: string, s1: bool, b2: string, a2: string, s2: bool)
    requires Kept(b1, a1, s1) && Kept(b2, a2, s2)
    ensures Kept(b1 + b2, a1 + a2, s1 && s2)
  {}

  lemma {:induction false} TokensAreVisible(ts: seq<RefToken>, encode: string -> string)
    requires forall t <- ts :: Faithful(t)
    ensures Kept(Render(ts), VisibleAll(FromTokens(ts, encode)), !exists t <- ts :: t.Wikilink?)
  {
    if ts != [] {
      TokenIsVisible(ts[0], encode);
      TokensAreVisible(ts[1..], encode);
      var rest := FromTokens(ts[1..], encode);
      VisibleAppend([FromToken(ts[0], encode)], rest);
      VisibleOne(FromToken(ts[0], encode));
      KeptTogether(Raw(ts[0]), Visible(FromToken(ts[0], encode)), !ts[0].Wikilink?,
                   Render(ts[1..]), VisibleAll(rest), !exists t <- ts[1..] :: t.Wikilink?);
      assert (exists t <- ts :: t.Wikilink?) == (ts[0].Wikilink? || exists t <- ts[1..] :: t.Wikilink?);
    }
  }

  lemma TextIsVisible(u: Unicode, n: MdNode, encode: string -> string)
    requires IsText(n)
    ensures Kept(Visible(n), VisibleAll(FromText(u, n, encode)), !exists t <- Tokens(u, n.value) :: t.Wikilink?)
  {
    TokenizingIsLossless(u, n.value);
    TokensAreVisible(Tokens(u, n.value), encode);
    VisibleOne(n);
  }

  /** Linking the references keeps the visible text exactly when no walked text holds a wikilink;
      otherwise the text gets shorter. */
  lemma {:induction false} WalkKeepsVisibleTextIff(u: Unicode, n: MdNode, encode: string -> string)
    ensures Kept(Visible(n), Visible(Walk(u, n, encode)), !HasWikilink(u, n))
    decreases n
  {
    if IsOpen(n) { WalkAllKeepsVisibleTextIff(u, n.children, encode); }
  }

  lemma {:induction false} WalkAllKeepsVisibleTextIff(u: Unicode, ns: seq<MdNode>, encode: string -> string)
    ensures Kept(VisibleAll(ns), VisibleAll(WalkAll(u, ns, encode)), !AnyWikilink(u, ns))
    decreases ns
  {
    if ns != [] {
      var n, rest := ns[0], ns[1..];
      var first := if IsText(n) then FromText(u, n, encode) else [Walk(u, n, encode)];
      var same := if IsText(n) then !exists t <- Tokens(u, n.value) :: t.Wikilink? else !HasWikilink(u, n);
      if IsText(n) {
        TextIsVisible(u, n, encode);
      } else {
        WalkKeepsVisibleTextIff(u, n, encode);
        VisibleOne(Walk(u, n, encode));
      }
      WalkAllKeepsVisibleTextIff(u, rest, encode);
      VisibleAppend(first, WalkAll(u, rest, encode));
      KeptTogether(Visible(n), VisibleAll(first), same, VisibleAll(rest), VisibleAll(WalkAll(u, rest, encode)),
          !AnyWikilink(u, rest));
    }
  }

  /** What the tokens of a text start with, when there is a reference among them. */
  lemma FirstIsLess(u: Unicode, n: MdNode, encode: string -> string)
    requires IsText(n) && exists t <- Tokens(u, n.value) :: !t.Plain?
    ensures FromText(u, n, encode) != [] && FromText(u, n, encode)[0] != n
  {
    var ts := Tokens(u, n.value);
    TokenizingIsLossless(u, n.value);
    if ts[0].Plain? {
      assert |ts| > 1 && Faithful(ts[1]) && Raw(ts[1]) != "";
      assert Render(ts) == Raw(ts[0]) + (Raw(ts[1]) + Render(ts[1..][1..]));
    }
  }

  lemma NoReferenceIsOne(u: Unicode, n: MdNode, encode: string -> string)
    requires IsText(n) && forall t <- Tokens(u, n.value) :: t.Plain?
    ensures FromText(u, n, encode) == [n]
  {
    var ts := Tokens(u, n.value);
    TokenizingIsLossless(u, n.value);
    assert forall k :: 0 <= k < |ts| ==> ts[k] in ts && ts[k].Plain?;
  }

  lemma NothingInNothing(u: Unicode)
    ensures Tokens(u, "") == []
  {
    var pieces := Pieces("", 0, []);
    assert Scan(u, "", 0) == [] && pieces == [Plain("")] && pieces[1..] == [];
  }

  /** A tree is left exactly as it is when nothing that is walked holds a reference, and only then. */
  lemma {:induction false} WalkIsIdentityIff(u: Unicode, n: MdNode, encode: string -> string)
    ensures Walk(u, n, encode) == n <==> !HasReference(u, n)
    decreases n
  {
    if IsOpen(n) { WalkAllIsIdentityIff(u, n.children, encode); }
  }

  lemma {:induction false} WalkAllIsIdentityIff(u: Unicode, ns: seq<MdNode>, encode: string -> string)
    ensures WalkAll(u, ns, encode) == ns <==> !AnyReference(u, ns)
    decreases ns
  {
    if ns != [] {
      var n, rest := ns[0], ns[1..];
      var first := if IsText(n) then FromText(u, n, encode) else [Walk(u, n, encode)];
      WalkAllIsIdentityIff(u, rest, encode);
      NothingInNothing(u);
      if IsText(n) {
        if exists t <- Tokens(u, n.value) :: !t.Plain? { FirstIsLess(u, n, encode); }
        else { NoReferenceIsOne(u, n, encode); }
      } else {
        WalkIsIdentityIff(u, n, encode);
      }
      assert WalkAll(u, ns, encode) == first + WalkAll(u, rest, encode) && ns == [n] + rest;
      SameTogether(first, n, WalkAll(u, rest, encode), rest);
    }
  }

  lemma SameTogether(first: seq<MdNode>, n: MdNode, walked: seq<MdNode>, rest: seq<MdNode>)
    requires first != []
    ensures first[0] != n ==> first + walked != [n] + rest
    ensures first == [n] ==> (first + walked == [n] + rest <==> walked == rest)
  {
    assert first[0] != n ==> (first + walked)[0] != ([n] + rest)[0];
    assert first == [n] ==> (first + walked)[1..] == walked && ([n] + rest)[1..] == rest;
  }

  // ------------------------------------------------------------------- reading a link

  /** The pieces that String.prototype.split makes at colons: the first one, and what follows it. */
  function FirstPiece(s: string): string {
    if s == "" || s[0] == ':' then "" else [s[0]] + FirstPiece(s[1..])
  }

  function OtherPieces(s: string): string {
    if s == "" then "" else if s[0] == ':' then s[1..] else OtherPieces(s[1..])
  }

  /** What Markdown.tsx makes of the address of such a link: a kind and a key. */
  function ReadLink(href: string, decode: string -> string): (string, string) {
    (FirstPiece(OtherPieces(href)), decode(FirstPiece(OtherPieces(OtherPieces(href)))))
  }

  /** What a reference is of, and to what it refers. */
  function Referent(t: RefToken): (string, string)
    requires !t.Plain?
  {
    match t
    case Requirement(_, key) => ("requirement", key)
    case Wikilink(_, target, _) => ("wikilink", target)
    case Mention(_, handle) => ("user", handle)
  }

  /** decodeURIComponent undoes encodeURIComponent, which leaves no colon. */
  ghost predicate Inverse(encode: string -> string, decode: string -> string) {
    forall s: string :: decode(encode(s)) == s && ':' !in encode(s)
  }

  lemma {:induction false} PiecesOf(first: string, rest: string)
    requires ':' !in first
    ensures FirstPiece(first) == first
    ensures FirstPiece(first + ":" + rest) == first && OtherPieces(first + ":" + rest) == rest
  {
    var whole := first + ":" + rest;
    if first == "" {
      assert whole[1..] == rest;
    } else {
      PiecesOf(first[1..], rest);
      assert whole[0] == first[0] && whole[1..] == first[1..] + ":" + rest;
    }
  }

  lemma LinkLeadsBack(kind: string, key: string, encode: string -> string, decode: string -> string)
    requires Inverse(encode, decode) && ':' !in kind
    ensures ReadLink("qg-ref:" + kind + ":" + encode(key), decode) == (kind, key)
  {
    var raw := encode(key);
    assert "qg-ref:" + kind + ":" + raw == "qg-ref" + ":" + (kind + ":" + raw);
    PiecesOf("qg-ref", kind + ":" + raw);
    PiecesOf(kind, raw);
    PiecesOf(raw, "");
  }

  /** The node is a link that leads back to what the reference refers to. It shows the reference as it is
      written, a wikilink its alias, or its target if it has none. */
  ghost predicate LeadsBack(n: MdNode, t: RefToken, decode: string -> string)
    requires !t.Plain?
  {
    && n.Parent? && n.kind == "link" && n.url.Some? && ReadLink(n.url.value, decode) == Referent(t)
    && n.children == [Literal("text", if !t.Wikilink? then t.raw else if t.alias == None then t.target
                                      else t.alias.value)]
  }

  lemma TokenLeadsBack(t: RefToken, encode: string -> string, decode: string -> string)
    requires !t.Plain? && Inverse(encode, decode)
    ensures LeadsBack(FromToken(t, encode), t, decode)
  {
    var (kind, key) := Referent(t);
    LinkLeadsBack(kind, key, encode, decode);
    match t {
      case Requirement(_, _) => assert "qg-ref:" + kind + ":" == "qg-ref:requirement:";
      case Wikilink(_, _, _) => assert "qg-ref:" + kind + ":" == "qg-ref:wikilink:";
      case Mention(_, _) => assert "qg-ref:" + kind + ":" == "qg-ref:user:";
    }
  }

  lemma PlainTextIsItself(u: Unicode, n: MdNode)
    requires IsText(n) && |Tokens(u, n.value)| == 1 && Tokens(u, n.value)[0].Plain?
    ensures n == TextNode(Tokens(u, n.value)[0].value)
  {
    var ts := Tokens(u, n.value);
    TokenizingIsLossless(u, n.value);
    RenderOne(ts[0]);
    assert ts == [ts[0]];
  }

  /** A text becomes one node for each of its tokens, in order: its text, or such a link. */
  lemma EveryLinkLeadsBack(u: Unicode, n: MdNode, encode: string -> string, decode: string -> string, i: nat)
    requires IsText(n) && Inverse(encode, decode) && i < |Tokens(u, n.value)|
    ensures |FromText(u, n, encode)| == |Tokens(u, n.value)|
    ensures var t, node := Tokens(u, n.value)[i], FromText(u, n, encode)[i];
            if t.Plain? then node == TextNode(t.value) else LeadsBack(node, t, decode)
  {
    var ts := Tokens(u, n.value);
    FromEachToken(ts, encode, i);
    if |ts| == 1 && ts[0].Plain? {
      PlainTextIsItself(u, n);
    } else if !ts[i].Plain? {
      TokenLeadsBack(ts[i], encode, decode);
    }
  }

  lemma {:induction false} FromEachToken(ts: seq<RefToken>, encode: string -> string, i: nat)
    requires i < |ts|
    ensures |FromTokens(ts, encode)| == |ts| && FromTokens(ts, encode)[i] == FromToken(ts[i], encode)
  {
    if i > 0 { FromEachToken(ts[1..], encode, i - 1); }
    else if |ts| > 1 { FromEachToken(ts[1..], encode, 0); }
  }
}
