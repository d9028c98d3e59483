/** The quote-aware passes over opening link tags (src/lib/markdown.ts, `injectRel` and `ensureLinkTarget`). */
module OpenTags {
  import opened JsText

  // ---- OPEN_A_TAG -----------------------------------------------------------------------------

  datatype Quote = Plain | Double | Single

  function Step(q: Quote, c: char): Quote {
    match q
    case Plain => if c == '"' then Double else if c == '\'' then Single else Plain
    case Double => if c == '"' then Plain else Double
    case Single => if c == '\'' then Plain else Single
  }

  function QuoteAfter(q: Quote, s: string): Quote
    decreases |s|
  {
    if s == "" then q else QuoteAfter(Step(q, s[0]), s[1..])
  }

  /** Position of the first '>' outside quotes, or `|s|`. */
  function TagEnd(q: Quote, s: string): (k: nat)
    ensures k <= |s|
    ensures k < |s| ==> s[k] == '>'
    decreases |s|
  {
    if s == "" || (q.Plain? && s[0] == '>') then 0 else 1 + TagEnd(Step(q, s[0]), s[1..])
  }

  /** Length of the opening link tag that starts `s`, or 0: `/<a(\s(?:[^>"']|"[^"]*"|'[^']*')*)?>/i`. */
  function MatchA(s: string): (n: nat)
    ensures n <= |s|
    ensures n > 0 ==> n >= 3 && s[0] == '<' && s[n - 1] == '>'
  {
    if |s| < 3 || s[0] != '<' || LowerChar(s[1]) != 'a' || !(s[2] == '>' || IsSpace(s[2])) then 0
    else
      var k := TagEnd(Plain, s[2..]);
      if k < |s| - 2 then 3 + k else 0
  }

  /** The attribute text between `<a` and `>`. */
  function Attrs(tag: string): string
    requires |tag| >= 3
  {
    tag[2..|tag| - 1]
  }

  // ---- The attribute to ensure ----------------------------------------------------------------

  predicate Quiet(s: string) {
    '"' !in s && '\'' !in s && '<' !in s && '>' !in s && '=' !in s
  }

  type QuietText = s: string | Quiet(s)

  type KeyText = s: string | s != "" && forall i :: 0 <= i < |s| ==> 'a' <= s[i] <= 'z' witness "k"

  datatype Attr = Attr(key: KeyText, value: QuietText)

  const REL_PEER: QuietText := "noopener noreferrer "
  const REL_RANK: QuietText := "nofollow ugc"
  const REL := Attr("rel", REL_PEER + REL_RANK)
  const TARGET := Attr("target", "_blank")

  function Insertion(a: Attr): string {
    " " + (a.key + ("=\"" + (a.value + "\"")))
  }

  /** `key\s*=` starts `s`. */
  predicate KeyAt(key: string, s: string) {
    StartsCi(key, s) && TrimStart(s[|key|..]) != "" && TrimStart(s[|key|..])[0] == '='
  }

  /** `/\bkey\s*=/i` finds a match in `s`, read after a word character or not. */
  predicate HasKey(key: string, afterWord: bool, s: string)
    decreases |s|
  {
    s != "" && ((!afterWord && KeyAt(key, s)) || HasKey(key, IsWord(s[0]), s[1..]))
  }

  // ---- The passes -----------------------------------------------------------------------------

  function Ensure(a: Attr, tag: string): string
    requires |tag| >= 3
  {
    if HasKey(a.key, false, Attrs(tag)) then tag else "<a" + (Attrs(tag) + (Insertion(a) + ">"))
  }

  function Rewrite(a: Attr, s: string): string
    decreases |s|
  {
    if s == "" then ""
    else if MatchA(s) > 0 then Ensure(a, s[..MatchA(s)]) + Rewrite(a, s[MatchA(s)..])
    else [s[0]] + Rewrite(a, s[1..])
  }

  function InjectRel(html: string): string {
    Rewrite(REL, html)
  }

  function EnsureLinkTarget(html: string): string {
    Rewrite(TARGET, html)
  }

  /** The attribute texts of the tags the scanner recognises, in order. */
  function Tags(s: string): seq<string>
    decreases |s|
  {
    if s == "" then []
    else if MatchA(s) > 0 then [Attrs(s[..MatchA(s)])] + Tags(s[MatchA(s)..])
    else Tags(s[1..])
  }

  function EnsureAttrs(a: Attr, attrs: string): string {
    if HasKey(a.key, false, attrs) then attrs else attrs + Insertion(a)
  }

  function EnsureAll(a: Attr, tags: seq<string>): seq<string> {
    if tags == [] then [] else [EnsureAttrs(a, tags[0])] + EnsureAll(a, tags[1..])
  }

  // ---- Quote states ---------------------------------------------------------------------------

  lemma {:induction false} QuoteCat(q: Quote, a: string, b: string)
    ensures QuoteAfter(q, a + b) == QuoteAfter(QuoteAfter(q, a), b)
    decreases |a|
  {
    if a == "" {
      assert a + b == b;
    } else {
      QuoteCat(Step(q, a[0]), a[1..], b);
      assert (a + b)[1..] == a[1..] + b;
    }
  }

  lemma {:induction false} EndCat(q: Quote, a: string, b: string)
    ensures TagEnd(q, a + b) == if TagEnd(q, a) < |a| then TagEnd(q, a) else |a| + TagEnd(QuoteAfter(q, a), b)
    decreases |a|
  {
    if a == "" {
      assert a + b == b;
    } else {
      EndCat(Step(q, a[0]), a[1..], b);
      assert (a + b)[1..] == a[1..] + b;
    }
  }

  lemma {:induction false} QuietKeeps(q: Quote, s: string)
    requires Quiet(s)
    ensures QuoteAfter(q, s) == q && TagEnd(q, s) == |s|
  {
    if s != "" {
      assert s[0] in s && forall c :: c in s[1..] ==> c in s;
      QuietKeeps(q, s[1..]);
    }
  }

  /** The inserted text leaves the quote state as it was, whatever it was, and ends no tag. */
  lemma InsertionKeeps(a: Attr, q: Quote)
    ensures QuoteAfter(q, Insertion(a)) == q && TagEnd(q, Insertion(a)) == |Insertion(a)|
  {
    var q' := Step(q, '"');
    var tail := a.value + "\"";
    QuietThen(q', a.value, "\"");
    assert "=\"" + tail == ['='] + (['"'] + tail);
    assert QuoteAfter(q, "=\"" + tail) == q && TagEnd(q, "=\"" + tail) == |"=\"" + tail|;
    QuietThen(q, a.key, "=\"" + tail);
  }

  lemma QuietThen(q: Quote, quiet: string, r: string)
    requires Quiet(quiet)
    ensures QuoteAfter(q, quiet + r) == QuoteAfter(q, r)
    ensures TagEnd(q, quiet + r) == |quiet| + TagEnd(q, r)
  {
    QuietKeeps(q, quiet);
    QuoteCat(q, quiet, r);
    EndCat(q, quiet, r);
  }

  /** The attribute text of a match is balanced: its '>' is the first one outside quotes. */
  lemma MatchIsBalanced(s: string)
    requires MatchA(s) > 0
    ensures var attrs := Attrs(s[..MatchA(s)]);
            && s == s[..2] + (attrs + (">" + s[MatchA(s)..]))
            && TagEnd(Plain, attrs) == |attrs| && QuoteAfter(Plain, attrs) == Plain
            && (attrs != "" ==> IsSpace(attrs[0]))
  {
    var u, n := s[2..], MatchA(s);
    EndSplits(Plain, u);
    var attrs := Attrs(s[..n]);
    assert attrs == u[..n - 3];
    assert u[n - 3..] == ">" + s[n..];
    assert u == u[..n - 3] + u[n - 3..];
    assert s == s[..2] + u;
  }

  lemma {:induction false} EndSplits(q: Quote, s: string)
    ensures var k := TagEnd(q, s);
            TagEnd(q, s[..k]) == k && (k < |s| ==> QuoteAfter(q, s[..k]) == Plain)
    decreases |s|
  {
    var k := TagEnd(q, s);
    if k > 0 {
      EndSplits(Step(q, s[0]), s[1..]);
      assert s[..k][1..] == s[1..][..k - 1];
    }
  }

  lemma AtGreater(r: string)
    ensures TagEnd(Plain, ">" + r) == 0
  {
  }

  lemma BalancedParts(head: string, attrs: string, r: string)
    requires |head| == 2
    ensures var s := head + (attrs + (">" + r));
            s[..|attrs| + 3] == head + (attrs + ">") && s[|attrs| + 3..] == r
    ensures Attrs(head + (attrs + ">")) == attrs
  {
    assert head + (attrs + (">" + r)) == (head + (attrs + ">")) + r;
  }

  lemma MatchFrom(s: string, head: string, u: string)
    requires s == head + u && |head| == 2 && head[0] == '<' && LowerChar(head[1]) == 'a'
    requires u != "" && (u[0] == '>' || IsSpace(u[0])) && TagEnd(Plain, u) < |u|
    ensures MatchA(s) == TagEnd(Plain, u) + 3
  {
    hide TagEnd, IsSpace;
    assert s[2..] == u && s[2] == u[0];
  }

  lemma BalancedEnd(attrs: string, r: string)
    requires TagEnd(Plain, attrs) == |attrs| && QuoteAfter(Plain, attrs) == Plain
    requires attrs != "" ==> IsSpace(attrs[0])
    ensures var u := attrs + (">" + r); TagEnd(Plain, u) == |attrs| && (u[0] == '>' || IsSpace(u[0]))
  {
    hide TagEnd, QuoteAfter, IsSpace;
    EndCat(Plain, attrs, ">" + r);
    AtGreater(r);
  }

  /** `<a`, a balanced attribute text and `>` are recognised as one tag, whatever follows. */
  lemma BalancedMatches(head: string, attrs: string, r: string)
    requires |head| == 2 && head[0] == '<' && LowerChar(head[1]) == 'a'
    requires TagEnd(Plain, attrs) == |attrs| && QuoteAfter(Plain, attrs) == Plain
    requires attrs != "" ==> IsSpace(attrs[0])
    ensures var s := head + (attrs + (">" + r));
            MatchA(s) == |attrs| + 3 && Attrs(s[..|attrs| + 3]) == attrs && s[|attrs| + 3..] == r
  {
    hide *;
    BalancedEnd(attrs, r);
    MatchFrom(head + (attrs + (">" + r)), head, attrs + (">" + r));
    BalancedParts(head, attrs, r);
  }

  // ---- What a pass does to one tag ------------------------------------------------------------

  lemma {:induction false} KeyInside(key: string, afterWord: bool, x: string, r: string)
    requires HasKey(key, true, r) || (x != "" && !IsWord(x[|x| - 1]) && HasKey(key, false, r))
    ensures HasKey(key, afterWord, x + r)
    decreases |x|
  {
    if x == "" {
      assert x + r == r;
      KeyWeaker(key, r);
    } else {
      assert (x + r)[1..] == x[1..] + r;
      if |x| == 1 {
        assert x[1..] + r == r;
        if HasKey(key, true, r) {
          KeyWeaker(key, r);
        }
      } else {
        KeyInside(key, IsWord(x[0]), x[1..], r);
      }
    }
  }

  lemma KeyWeaker(key: string, s: string)
    requires HasKey(key, true, s)
    ensures HasKey(key, false, s)
  {}

  /** Once inserted, the attribute is found by the presence test. */
  lemma InsertionFound(a: Attr, attrs: string)
    ensures HasKey(a.key, false, attrs + Insertion(a))
  {
    var r := a.key + ("=\"" + (a.value + "\""));
    KeyFound(a.key, "=\"" + (a.value + "\""));
    var x := attrs + " ";
    assert x[|x| - 1] == ' ';
    KeyInside(a.key, false, x, r);
    assert attrs + Insertion(a) == x + r;
  }

  lemma KeyFound(key: KeyText, w: string)
    requires w != "" && w[0] == '='
    ensures KeyAt(key, key + w) && HasKey(key, false, key + w)
  {
    StartsHead(key, w);
    assert (key + w)[|key|..] == w;
    assert TrimStart(w) == w;
  }

  /** A pass turns a recognised tag into a recognised tag with the ensured attribute text. */
  lemma EnsureIsTag(a: Attr, s: string, r: string)
    requires MatchA(s) > 0
    ensures var t := Ensure(a, s[..MatchA(s)]);
            var attrs := EnsureAttrs(a, Attrs(s[..MatchA(s)]));
            && MatchA(t + r) == |t| && (t + r)[..|t|] == t && (t + r)[|t|..] == r
            && Attrs(t) == attrs && t[0] == '<'
  {
    MatchIsBalanced(s);
    var before := Attrs(s[..MatchA(s)]);
    var attrs := EnsureAttrs(a, before);
    BalancedEnsured(a, before);
    var t := Ensure(a, s[..MatchA(s)]);
    var head := t[..2];
    assert t == head + (attrs + ">");
    assert t + r == head + (attrs + (">" + r));
    BalancedMatches(head, attrs, r);
  }

  lemma BalancedEnsured(a: Attr, attrs: string)
    requires TagEnd(Plain, attrs) == |attrs| && QuoteAfter(Plain, attrs) == Plain
    requires attrs != "" ==> IsSpace(attrs[0])
    ensures var e := EnsureAttrs(a, attrs);
            TagEnd(Plain, e) == |e| && QuoteAfter(Plain, e) == Plain && (e != "" ==> IsSpace(e[0]))
  {
    InsertionKeeps(a, Plain);
    QuoteCat(Plain, attrs, Insertion(a));
    EndCat(Plain, attrs, Insertion(a));
  }

  // ---- What a pass does to the text between tags ----------------------------------------------

  lemma FirstKept(a: Attr, s: string)
    requires s != ""
    ensures Rewrite(a, s) != "" && Rewrite(a, s)[0] == s[0]
  {
    if MatchA(s) > 0 {
      EnsureIsTag(a, s, "");
    }
  }

  /** Whether a tag that starts further left ever ends does not change. */
  lemma {:induction false} EndKept(a: Attr, q: Quote, s: string)
    ensures TagEnd(q, Rewrite(a, s)) < |Rewrite(a, s)| <==> TagEnd(q, s) < |s|
    decreases |s|
  {
    hide MatchA, TagEnd, Rewrite, QuoteAfter, Ensure, Step;
    RewriteStep(a, s);
    if s != "" {
      var n := MatchA(s);
      if n > 0 {
        EndKeptTag(a, q, s, Rewrite(a, s[n..]));
        var t := s[..n];
        EndKept(a, QuoteAfter(q, t), s[n..]);
        EndCat(q, t, s[n..]);
        assert s == t + s[n..];
      } else {
        EndKept(a, Step(q, s[0]), s[1..]);
        EndStep(q, s[0], s[1..]);
        EndStep(q, s[0], Rewrite(a, s[1..]));
        assert s == [s[0]] + s[1..];
      }
    }
  }

  lemma RewriteStep(a: Attr, s: string)
    ensures Rewrite(a, s) ==
      if s == "" then ""
      else if MatchA(s) > 0 then Ensure(a, s[..MatchA(s)]) + Rewrite(a, s[MatchA(s)..])
      else [s[0]] + Rewrite(a, s[1..])
  {
    hide MatchA, Ensure;
  }

  lemma EndStep(q: Quote, c: char, u: string)
    ensures var s := [c] + u;
      TagEnd(q, s) < |s| <==> (q.Plain? && c == '>') || TagEnd(Step(q, c), u) < |u|
  {
    assert ([c] + u)[1..] == u;
  }

  lemma EndKeptTag(a: Attr, q: Quote, s: string, r: string)
    requires MatchA(s) > 0
    ensures var t := s[..MatchA(s)]; var u := Ensure(a, t) + r;
            TagEnd(q, u) < |u| <==> TagEnd(q, t) < |t| || TagEnd(QuoteAfter(q, t), r) < |r|
  {
    var t := s[..MatchA(s)];
    var attrs := Attrs(t);
    var head, head' := t[..2], Ensure(a, t)[..2];
    assert t == head + (attrs + ">");
    if HasKey(a.key, false, attrs) {
      EndCat(q, t, r);
    } else {
      var ins := Insertion(a);
      assert Ensure(a, t) + r == head' + (attrs + (ins + (">" + r)));
      HeadQuiet(q, head);
      HeadQuiet(q, head');
      InsertionKeeps(a, QuoteAfter(q, attrs));
      QuoteOfParts(q, head, attrs, "", ">");
      QuoteOfParts(q, head', attrs, ins, ">" + r);
      assert t == head + (attrs + ("" + ">"));
      EndCat(QuoteAfter(q, attrs), ">", r);
    }
  }

  lemma HeadQuiet(q: Quote, head: string)
    requires |head| == 2 && head[0] == '<' && LowerChar(head[1]) == 'a'
    ensures QuoteAfter(q, head) == q && TagEnd(q, head) == 2
  {
    var t := head[1..];
    assert t[0] == head[1] && t[1..] == "";
    assert QuoteAfter(q, t) == q && TagEnd(q, t) == 1;
  }

  lemma QuoteOfParts(q: Quote, a: string, b: string, c: string, d: string)
    requires QuoteAfter(q, a) == q && TagEnd(q, a) == |a|
    requires QuoteAfter(QuoteAfter(q, b), c) == QuoteAfter(q, b) && TagEnd(QuoteAfter(q, b), c) == |c|
    ensures var s := a + (b + (c + d));
            && QuoteAfter(q, s) == QuoteAfter(QuoteAfter(q, b), d)
            && (TagEnd(q, s) < |s| <==> TagEnd(q, b) < |b| || TagEnd(QuoteAfter(q, b), d) < |d|)
  {
    EndCat(q, a, b + (c + d));
    EndCat(q, b, c + d);
    EndCat(QuoteAfter(q, b), c, d);
    QuoteCat(q, a, b + (c + d));
    QuoteCat(q, b, c + d);
    QuoteCat(QuoteAfter(q, b), c, d);
  }
}
