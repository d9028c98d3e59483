/** What the `rel` and `target` passes guarantee about every document. */
module LinkAttributes {
  import opened JsText
  import opened OpenTags

  // ---- The tags of the output are the tags of the input, completed ----------------------------

  /** A '<' that starts no link tag still starts none after the rest of the text is rewritten. */
  lemma StillNoTag(a: Attr, s: string)
    requires s != "" && MatchA(s) == 0
    ensures MatchA([s[0]] + Rewrite(a, s[1..])) == 0
  {
    var t := [s[0]] + Rewrite(a, s[1..]);
    if s[0] == '<' && |s| > 1 {
      FirstKept(a, s[1..]);
      if LowerChar(s[1]) == 'a' {
        var u := s[1..];
        assert MatchA(u) == 0;
        assert t == [s[0], s[1]] + Rewrite(a, u[1..]);
        assert u[1..] == s[2..];
        ThirdKept(a, s, t);
      }
    }
  }

  lemma ThirdKept(a: Attr, s: string, t: string)
    requires |s| > 1 && s[0] == '<' && LowerChar(s[1]) == 'a' && MatchA(s) == 0
    requires t == [s[0], s[1]] + Rewrite(a, s[2..])
    ensures MatchA(t) == 0
  {
    assert t[2..] == Rewrite(a, s[2..]);
    if |s| > 2 {
      FirstKept(a, s[2..]);
      EndKept(a, Plain, s[2..]);
      assert t[2] == s[2];
    } else {
      assert s[2..] == "";
    }
  }

  /** The passes see, in the output, exactly the tags of the input with the attribute ensured. */
  lemma {:induction false} TagsOfRewrite(a: Attr, s: string)
    ensures Tags(Rewrite(a, s)) == EnsureAll(a, Tags(s))
    decreases |s|
  {
    if s != "" {
      var n := MatchA(s);
      if n > 0 {
        TagsOfRewrite(a, s[n..]);
        EnsureIsTag(a, s, Rewrite(a, s[n..]));
      } else {
        TagsOfRewrite(a, s[1..]);
        StillNoTag(a, s);
        var r := Rewrite(a, s[1..]);
        assert ([s[0]] + r)[1..] == r;
      }
    }
  }

  /** Each pass is idempotent, on every input. */
  lemma {:induction false} RewriteIdempotent(a: Attr, s: string)
    ensures Rewrite(a, Rewrite(a, s)) == Rewrite(a, s)
    decreases |s|
  {
    if s != "" {
      var n := MatchA(s);
      if n > 0 {
        RewriteIdempotent(a, s[n..]);
        EnsureIsTag(a, s, Rewrite(a, s[n..]));
        InsertionFound(a, Attrs(s[..n]));
      } else {
        RewriteIdempotent(a, s[1..]);
        StillNoTag(a, s);
        var r := Rewrite(a, s[1..]);
        assert ([s[0]] + r)[1..] == r;
      }
    }
  }

  predicate AllHave(key: string, tags: seq<string>) {
    tags == [] || (HasKey(key, false, tags[0]) && AllHave(key, tags[1..]))
  }

  lemma {:induction false} EnsureAllHave(a: Attr, tags: seq<string>)
    ensures AllHave(a.key, EnsureAll(a, tags))
  {
    if tags != [] {
      InsertionFound(a, tags[0]);
      EnsureAllHave(a, tags[1..]);
      assert ([EnsureAttrs(a, tags[0])] + EnsureAll(a, tags[1..]))[1..] == EnsureAll(a, tags[1..]);
    }
  }

  lemma {:induction false} EnsureKeeps(a: Attr, key: string, tags: seq<string>)
    requires AllHave(key, tags)
    ensures AllHave(key, EnsureAll(a, tags))
  {
    if tags != [] {
      KeyStays(key, false, tags[0], Insertion(a));
      EnsureKeeps(a, key, tags[1..]);
      assert ([EnsureAttrs(a, tags[0])] + EnsureAll(a, tags[1..]))[1..] == EnsureAll(a, tags[1..]);
    }
  }

  lemma {:induction false} KeyStays(key: string, afterWord: bool, x: string, r: string)
    requires HasKey(key, afterWord, x)
    ensures HasKey(key, afterWord, x + r)
    decreases |x|
  {
    assert (x + r)[1..] == x[1..] + r;
    if !afterWord && KeyAt(key, x) {
      KeyAtStays(key, x, r);
    } else {
      KeyStays(key, IsWord(x[0]), x[1..], r);
    }
  }

  lemma KeyAtStays(key: string, x: string, r: string)
    requires KeyAt(key, x)
    ensures KeyAt(key, x + r)
  {
    StartsStays(key, x, r);
    var u := x[|key|..];
    assert (x + r)[|key|..] == u + r;
    TrimStays(u, r);
  }

  lemma {:induction false} StartsStays(key: string, x: string, r: string)
    requires StartsCi(key, x)
    ensures StartsCi(key, x + r)
  {
    if key != "" {
      StartsStays(key[1..], x[1..], r);
      assert (x + r)[1..] == x[1..] + r;
    }
  }

  lemma {:induction false} TrimStays(u: string, r: string)
    requires TrimStart(u) != ""
    ensures TrimStart(u + r) != "" && TrimStart(u + r)[0] == TrimStart(u)[0]
  {
    if IsSpace(u[0]) {
      TrimStays(u[1..], r);
      assert (u + r)[1..] == u[1..] + r;
    }
  }

  /** After the write-time pass and the display-time pass, every tag the scanner recognises passes both of the
      code's own presence tests, whatever the input. */
  lemma EveryLinkHasBoth(html: string)
    ensures var out := Tags(EnsureLinkTarget(InjectRel(html)));
            AllHave(REL.key, out) && AllHave(TARGET.key, out) && |out| == |Tags(html)|
  {
    TagsOfRewrite(REL, html);
    TagsOfRewrite(TARGET, InjectRel(html));
    EnsureAllHave(REL, Tags(html));
    EnsureKeeps(TARGET, REL.key, EnsureAll(REL, Tags(html)));
    EnsureAllHave(TARGET, EnsureAll(REL, Tags(html)));
    SameCount(REL, Tags(html));
    SameCount(TARGET, EnsureAll(REL, Tags(html)));
  }

  lemma {:induction false} SameCount(a: Attr, tags: seq<string>)
    ensures |EnsureAll(a, tags)| == |tags|
  {
    if tags != [] {
      SameCount(a, tags[1..]);
    }
  }

  // ---- Only insertions ------------------------------------------------------------------------

  /** A copied character, or a recognised tag with what the pass adds before its '>'. */
  datatype Piece = Copied(c: char) | Link(head: string, attrs: string, added: string)

  function PieceAt(a: Attr, s: string): Piece
    requires s != ""
  {
    if MatchA(s) > 0 then TagPiece(a, s[..2], Attrs(s[..MatchA(s)])) else Copied(s[0])
  }

  function TagPiece(a: Attr, head: string, attrs: string): Piece {
    Link(head, attrs, if HasKey(a.key, false, attrs) then "" else Insertion(a))
  }

  function Cut(a: Attr, s: string): seq<Piece>
    decreases |s|
  {
    if s == "" then [] else [PieceAt(a, s)] + Cut(a, s[if MatchA(s) > 0 then MatchA(s) else 1..])
  }

  function SourceOf(p: Piece): string {
    match p
    case Copied(c) => [c]
    case Link(head, attrs, _) => head + (attrs + ">")
  }

  function OutputOf(p: Piece): string {
    match p
    case Copied(c) => [c]
    case Link(head, attrs, added) => (if added == "" then head else "<a") + (attrs + (added + ">"))
  }

  function Sources(ps: seq<Piece>): string {
    if ps == [] then "" else SourceOf(ps[0]) + Sources(ps[1..])
  }

  function Outputs(ps: seq<Piece>): string {
    if ps == [] then "" else OutputOf(ps[0]) + Outputs(ps[1..])
  }

  /** The insertion point of a tag is outside all of its quoted values, and its head is `<a` in some case. */
  predicate SoundPiece(a: Attr, p: Piece) {
    p.Link? ==>
      && (p.head == "<a" || p.head == "<A")
      && QuoteAfter(Plain, p.attrs) == Plain && TagEnd(Plain, p.attrs) == |p.attrs|
      && p == TagPiece(a, p.head, p.attrs)
  }

  predicate Sound(a: Attr, ps: seq<Piece>) {
    ps == [] || (SoundPiece(a, ps[0]) && Sound(a, ps[1..]))
  }

  lemma TagPieceIs(a: Attr, s: string)
    requires MatchA(s) > 0
    ensures var p := PieceAt(a, s);
            SoundPiece(a, p) && SourceOf(p) == s[..MatchA(s)] && OutputOf(p) == Ensure(a, s[..MatchA(s)])
  {
    MatchIsBalanced(s);
    var n := MatchA(s);
    var attrs := Attrs(s[..n]);
    assert s[..n] == s[..2] + (attrs + ">");
    HeadIsA(s[..2]);
    if HasKey(a.key, false, attrs) {
      assert attrs + ("" + ">") == attrs + ">";
    }
  }

  lemma HeadIsA(head: string)
    requires |head| == 2 && head[0] == '<' && LowerChar(head[1]) == 'a'
    ensures head == "<a" || head == "<A"
  {
    assert head == [head[0], head[1]];
  }

  lemma FirstCut(a: Attr, s: string) returns (p: Piece, n: nat)
    requires s != ""
    ensures 0 < n <= |s|
    ensures Cut(a, s) == [p] + Cut(a, s[n..]) && Rewrite(a, s) == OutputOf(p) + Rewrite(a, s[n..])
    ensures SourceOf(p) == s[..n] && SoundPiece(a, p)
  {
    p, n := PieceAt(a, s), if MatchA(s) > 0 then MatchA(s) else 1;
    if MatchA(s) > 0 {
      TagPieceIs(a, s);
    }
  }

  lemma EmptyCut(a: Attr)
    ensures Cut(a, "") == [] && Rewrite(a, "") == ""
  {}

  /** The pass copies the input and adds one attribute text to each tag that lacks it, outside quoted values. */
  lemma {:induction false} RewriteOnlyInserts(a: Attr, s: string)
    ensures Sources(Cut(a, s)) == s
    ensures Outputs(Cut(a, s)) == Rewrite(a, s)
    ensures Sound(a, Cut(a, s))
    decreases |s|
  {
    hide SoundPiece, SourceOf, OutputOf, Cut, Rewrite;
    if s == "" {
      EmptyCut(a);
    } else {
      var p, n := FirstCut(a, s);
      RewriteOnlyInserts(a, s[n..]);
      var ps := Cut(a, s[n..]);
      assert ([p] + ps)[1..] == ps;
      assert s == s[..n] + s[n..];
    }
  }

  /** What deleting the added attribute texts from the output leaves: the input, except that the head of a
      rewritten tag is written in lower case. */
  function Deleted(ps: seq<Piece>): string {
    if ps == [] then "" else OutputOf(WithoutAdded(ps[0])) + Deleted(ps[1..])
  }

  function WithoutAdded(p: Piece): Piece {
    match p
    case Copied(_) => p
    case Link(head, attrs, added) => Link(if added == "" then head else "<a", attrs, "")
  }

  predicate Shouted(p: Piece) {
    p.Link? && p.head == "<A" && p.added != ""
  }

  /** Deleting the insertions restores the input exactly when no tag that lacked the attribute is spelled `<A`. */
  lemma {:induction false} DeletionRestores(a: Attr, ps: seq<Piece>)
    requires Sound(a, ps)
    ensures |Deleted(ps)| == |Sources(ps)|
    ensures Deleted(ps) == Sources(ps) <==> forall p :: p in ps ==> !Shouted(p)
  {
    if ps != [] {
      DeletionRestores(a, ps[1..]);
      var d, s := OutputOf(WithoutAdded(ps[0])), SourceOf(ps[0]);
      HeadRestored(a, ps[0]);
      assert forall p :: p in ps <==> p == ps[0] || p in ps[1..];
      if d + Deleted(ps[1..]) == s + Sources(ps[1..]) {
        assert d == (d + Deleted(ps[1..]))[..|d|] && s == (s + Sources(ps[1..]))[..|s|];
        assert Deleted(ps[1..]) == (d + Deleted(ps[1..]))[|d|..] && Sources(ps[1..]) == (s + Sources(ps[1..]))[|s|..];
      }
    }
  }

  lemma HeadRestored(a: Attr, p: Piece)
    requires SoundPiece(a, p)
    ensures var d, s := OutputOf(WithoutAdded(p)), SourceOf(p);
            |d| == |s| && (d == s <==> !Shouted(p))
  {
    if p.Link? {
      var tail := p.attrs + ">";
      assert "" + ">" == ">";
      assert SourceOf(p)[1] == p.head[1];
      assert OutputOf(WithoutAdded(p))[1] == WithoutAdded(p).head[1];
    }
  }
}
