/** The composed display pass (src/lib/markdown.ts, `enhanceStoredHtml`): chips, then link targets, then headings. */
module Enhance {
  import opened JsText
  import ChainIds
  import OpenTags
  import LinkAttributes
  import opened Headings

  function EnhanceStoredHtml(html: string): string {
    ShiftContentHeadings(OpenTags.EnsureLinkTarget(ChainIds.Linkify(html)))
  }

  // ---- Swapping digits does not disturb the link scanner --------------------------------------

  lemma {:induction false} TagEndAlike(q: OpenTags.Quote, a: string, b: string)
    requires Alike(a, b)
    ensures OpenTags.TagEnd(q, a) == OpenTags.TagEnd(q, b)
    decreases |a|
  {
    if a != "" {
      TagEndAlike(OpenTags.Step(q, a[0]), a[1..], b[1..]);
      assert OpenTags.Step(q, a[0]) == OpenTags.Step(q, b[0]);
    }
  }

  lemma MatchAAlike(a: string, b: string)
    requires Alike(a, b)
    ensures OpenTags.MatchA(a) == OpenTags.MatchA(b)
  {
    if |a| >= 3 {
      AlikeAt(a, b, 1);
      AlikeAt(a, b, 2);
      AlikeDrop(a, b, 2);
      TagEndAlike(OpenTags.Plain, a[2..], b[2..]);
    }
  }

  lemma {:induction false} StartsAlike(key: OpenTags.KeyText, i: nat, a: string, b: string)
    requires Alike(a, b) && i <= |key|
    ensures StartsCi(key[i..], a) == StartsCi(key[i..], b)
    decreases |key| - i
  {
    if i < |key| && a != "" {
      assert key[i..][0] == key[i] && key[i..][1..] == key[i + 1..];
      StartsAlike(key, i + 1, a[1..], b[1..]);
    }
  }

  lemma {:induction false} TrimAlike(a: string, b: string)
    requires Alike(a, b)
    ensures Alike(TrimStart(a), TrimStart(b))
  {
    if a != "" && IsSpace(a[0]) {
      TrimAlike(a[1..], b[1..]);
    }
  }

  lemma KeyAtAlike(key: OpenTags.KeyText, a: string, b: string)
    requires Alike(a, b)
    ensures OpenTags.KeyAt(key, a) == OpenTags.KeyAt(key, b)
  {
    StartsAlike(key, 0, a, b);
    assert key[0..] == key;
    if |key| <= |a| {
      AlikeDrop(a, b, |key|);
      TrimAlike(a[|key|..], b[|key|..]);
    }
  }

  lemma {:induction false} HasKeyAlike(key: OpenTags.KeyText, afterWord: bool, a: string, b: string)
    requires Alike(a, b)
    ensures OpenTags.HasKey(key, afterWord, a) == OpenTags.HasKey(key, afterWord, b)
    decreases |a|
  {
    if a != "" {
      KeyAtAlike(key, a, b);
      HasKeyAlike(key, IsWord(a[0]), a[1..], b[1..]);
    }
  }

  lemma {:induction false} AlikeTake(a: string, b: string, k: nat)
    requires Alike(a, b) && k <= |a|
    ensures Alike(a[..k], b[..k])
  {
    if k > 0 {
      AlikeTake(a[1..], b[1..], k - 1);
      assert a[..k][1..] == a[1..][..k - 1] && b[..k][1..] == b[1..][..k - 1];
    }
  }

  lemma {:induction false} TagsAlike(key: OpenTags.KeyText, a: string, b: string)
    requires Alike(a, b)
    ensures LinkAttributes.AllHave(key, OpenTags.Tags(a)) == LinkAttributes.AllHave(key, OpenTags.Tags(b))
    ensures |OpenTags.Tags(a)| == |OpenTags.Tags(b)|
    decreases |a|
  {
    if a != "" {
      MatchAAlike(a, b);
      var n := OpenTags.MatchA(a);
      var k := if n > 0 then n else 1;
      AlikeDrop(a, b, k);
      TagsAlike(key, a[k..], b[k..]);
      if n > 0 {
        AttrsAlike(key, a, b, n);
        FirstTag(key, a);
        FirstTag(key, b);
      }
    }
  }

  lemma FirstTag(key: string, s: string)
    requires OpenTags.MatchA(s) > 0
    ensures var n := OpenTags.MatchA(s);
            && |OpenTags.Tags(s)| == 1 + |OpenTags.Tags(s[n..])|
            && (LinkAttributes.AllHave(key, OpenTags.Tags(s)) <==>
                OpenTags.HasKey(key, false, OpenTags.Attrs(s[..n])) &&
                LinkAttributes.AllHave(key, OpenTags.Tags(s[n..])))
  {
    var n := OpenTags.MatchA(s);
    assert OpenTags.Tags(s)[1..] == OpenTags.Tags(s[n..]);
  }

  lemma AttrsAlike(key: OpenTags.KeyText, a: string, b: string, n: nat)
    requires Alike(a, b) && 3 <= n <= |a|
    ensures OpenTags.HasKey(key, false, OpenTags.Attrs(a[..n])) == OpenTags.HasKey(key, false, OpenTags.Attrs(b[..n]))
  {
    AlikeTake(a, b, n - 1);
    AlikeDrop(a[..n - 1], b[..n - 1], 2);
    assert a[..n - 1][2..] == OpenTags.Attrs(a[..n]) && b[..n - 1][2..] == OpenTags.Attrs(b[..n]);
    HasKeyAlike(key, false, OpenTags.Attrs(a[..n]), OpenTags.Attrs(b[..n]));
  }

  /** Whatever HTML was stored: in what is shown no h1 is left, every link the scanner recognises (the chips of
      the first pass included) passes the target test, and no link is added or lost after the chips. */
  lemma ShownHtml(html: string)
    ensures var out := EnhanceStoredHtml(html);
            && (forall h :: h in HeadingsIn(out) ==> 2 <= h.level <= 6)
            && LinkAttributes.AllHave(OpenTags.TARGET.key, OpenTags.Tags(out))
            && |OpenTags.Tags(out)| == |OpenTags.Tags(ChainIds.Linkify(html))|
  {
    var chips := ChainIds.Linkify(html);
    var linked := OpenTags.EnsureLinkTarget(chips);
    NoTopHeading(linked);
    LinkAttributes.TagsOfRewrite(OpenTags.TARGET, chips);
    LinkAttributes.EnsureAllHave(OpenTags.TARGET, OpenTags.Tags(chips));
    LinkAttributes.SameCount(OpenTags.TARGET, OpenTags.Tags(chips));
    ShiftIsAlike(linked);
    TagsAlike(OpenTags.TARGET.key, linked, EnhanceStoredHtml(html));
  }
}
