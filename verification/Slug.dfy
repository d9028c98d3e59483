/** Profile URL slugs (src/lib/slug.ts). A name is taken after compatibility decomposition and removal of combining
    marks, which leave ASCII as it is; what is not ASCII then never becomes a slug character. */
module Slug {
  import opened JsText

  predicate IsSlugChar(c: char) { 'a' <= c <= 'z' || IsDigit(c) }

  // ---- The pipeline ---------------------------------------------------------------------------

  /** `replace(/[^a-z0-9]+/g, '-')`; `inRun` says whether the character before was replaced too. */
  function Collapse(s: string, inRun: bool): string
    decreases |s|
  {
    if s == "" then ""
    else if IsSlugChar(s[0]) then [s[0]] + Collapse(s[1..], false)
    else (if inRun then "" else "-") + Collapse(s[1..], true)
  }

  /** `replace(/^-+/, '')`. */
  function DropHyphens(s: string): string {
    if s != "" && s[0] == '-' then DropHyphens(s[1..]) else s
  }

  /** `replace(/-+$/, '')`. */
  function CutHyphens(s: string): string {
    if s != "" && s[|s| - 1] == '-' then CutHyphens(s[..|s| - 1]) else s
  }

  function Take(s: string, max: nat): string {
    if max < |s| then s[..max] else s
  }

  function Full(name: string): string {
    CutHyphens(DropHyphens(Collapse(Lower(name), false)))
  }

  function SlugBase(name: string, max: nat): string {
    CutHyphens(Take(Full(name), max))
  }

  /** `id.slice(-len)`: for 0 that is the whole id. */
  function TailOf(id: string, len: nat): string {
    if len == 0 || len > |id| then id else id[|id| - len..]
  }

  function SlugWithIdTail(base: string, id: string, len: nat): string {
    base + "-" + TailOf(id, len)
  }

  // ---- What a slug is -------------------------------------------------------------------------

  /** The maximal runs of slug characters; `word` is the run being read. */
  function Words(s: string, word: string): seq<string>
    decreases |s|
  {
    if s == "" then if word == "" then [] else [word]
    else if IsSlugChar(s[0]) then Words(s[1..], word + [s[0]])
    else (if word == "" then [] else [word]) + Words(s[1..], "")
  }

  function Join(words: seq<string>): string {
    if words == [] then "" else if |words| == 1 then words[0] else words[0] + "-" + Join(words[1..])
  }

  /** Slug characters and single hyphens between them; `after` says whether a slug character comes before `s`. */
  predicate Chained(s: string, after: bool)
    decreases |s|
  {
    s == "" || (if IsSlugChar(s[0]) then Chained(s[1..], true) else s[0] == '-' && after && Chained(s[1..], false))
  }

  /** Empty, or runs of slug characters separated by single hyphens. */
  predicate IsSlug(s: string) { Chained(s, false) && (s != "" ==> s[|s| - 1] != '-') }

  // ---- The collapsed text ---------------------------------------------------------------------

  /** Dropping the hyphens at the front is the same as starting inside a run. */
  lemma {:induction false} DropIsInRun(s: string)
    ensures DropHyphens(Collapse(s, false)) == Collapse(s, true)
  {
    if s == "" {
    } else if IsSlugChar(s[0]) {
      assert Collapse(s, false)[0] == s[0];
    } else {
      assert ("-" + Collapse(s[1..], true))[1..] == Collapse(s[1..], true);
      NoFrontHyphen(s[1..]);
    }
  }

  lemma {:induction false} NoFrontHyphen(s: string)
    ensures Collapse(s, true) != "" ==> IsSlugChar(Collapse(s, true)[0])
    ensures DropHyphens(Collapse(s, true)) == Collapse(s, true)
  {
    if s != "" && !IsSlugChar(s[0]) {
      NoFrontHyphen(s[1..]);
    }
  }

  lemma {:induction false} CollapseChained(s: string, inRun: bool)
    ensures Chained(Collapse(s, inRun), !inRun)
    decreases |s|
  {
    if s != "" {
      CollapseChained(s[1..], !IsSlugChar(s[0]));
      var t := Collapse(s, inRun);
      if IsSlugChar(s[0]) {
        assert t[1..] == Collapse(s[1..], false);
      } else if inRun {
        assert t == Collapse(s[1..], true);
      } else {
        assert t[1..] == Collapse(s[1..], true);
      }
    }
  }

  lemma {:induction false} ChainedTake(s: string, n: nat, after: bool)
    requires Chained(s, after) && n <= |s|
    ensures Chained(s[..n], after)
    decreases |s|
  {
    if n > 0 {
      ChainedTake(s[1..], n - 1, IsSlugChar(s[0]));
      assert s[..n][1..] == s[1..][..n - 1];
    }
  }

  lemma {:induction false} CutIs(s: string)
    ensures CutHyphens(s) <= s && (CutHyphens(s) != "" ==> CutHyphens(s)[|CutHyphens(s)| - 1] != '-')
  {
    if s != "" {
      CutIs(s[..|s| - 1]);
    }
  }

  lemma CutIsSlug(s: string)
    requires Chained(s, false)
    ensures IsSlug(CutHyphens(s))
  {
    CutIs(s);
    ChainedTake(s, |CutHyphens(s)|, false);
    assert CutHyphens(s) == s[..|CutHyphens(s)|];
  }

  lemma FullIsSlug(name: string)
    ensures IsSlug(Full(name))
  {
    DropIsInRun(Lower(name));
    CollapseChained(Lower(name), true);
    CutIsSlug(Collapse(Lower(name), true));
  }

  /** A slug is empty or hyphen-separated runs of slug characters, and never longer than the cap. */
  lemma SlugForm(name: string, max: nat)
    ensures IsSlug(SlugBase(name, max)) && |SlugBase(name, max)| <= max
  {
    FullIsSlug(name);
    var t := Take(Full(name), max);
    if max < |Full(name)| {
      ChainedTake(Full(name), max, false);
    }
    CutIsSlug(t);
    CutIs(t);
  }

  // ---- Slugs of slugs -------------------------------------------------------------------------

  lemma {:induction false} SlugUnchanged(s: string, after: bool)
    requires Chained(s, after)
    ensures Collapse(Lower(s), !after) == s
    decreases |s|
  {
    if s != "" {
      assert Lower(s)[1..] == Lower(s[1..]);
      SlugUnchanged(s[1..], IsSlugChar(s[0]));
    }
  }

  lemma SlugIsOwnFull(s: string)
    requires IsSlug(s)
    ensures Full(s) == s
  {
    DropIsInRun(Lower(s));
    SlugUnchanged(s, false);
  }

  /** A slug is its own slug under any cap it fits. */
  lemma Idempotent(name: string, max: nat, cap: nat)
    requires |SlugBase(name, max)| <= cap
    ensures SlugBase(SlugBase(name, max), cap) == SlugBase(name, max)
  {
    SlugForm(name, max);
    SlugIsOwnFull(SlugBase(name, max));
  }

  // ---- Capping --------------------------------------------------------------------------------

  /** Before a hyphen comes a slug character. */
  lemma {:induction false} NoDouble(s: string, i: nat, after: bool)
    requires Chained(s, after) && i < |s| && s[i] == '-'
    ensures if i == 0 then after else IsSlugChar(s[i - 1])
    decreases |s|
  {
    if i > 0 {
      NoDouble(s[1..], i - 1, IsSlugChar(s[0]));
    }
  }

  /** Capping cuts at the cap, and drops the one hyphen that the cut may leave at the end. */
  lemma CapIs(s: string, max: nat)
    requires IsSlug(s)
    ensures CutHyphens(Take(s, max)) ==
      if max >= |s| then s else if max > 0 && s[max - 1] == '-' then s[..max - 1] else s[..max]
  {
    if max < |s| && max > 0 && s[max - 1] == '-' {
      assert s[..max][..max - 1] == s[..max - 1];
      NoDouble(s, max - 1, false);
    }
  }

  /** Of all slugs that begin the full slug and fit the cap, the capped slug is the longest. */
  lemma CapIsLongest(name: string, max: nat, t: string)
    requires IsSlug(t) && t <= Full(name) && |t| <= max
    ensures SlugBase(name, max) <= Full(name) && t <= SlugBase(name, max)
  {
    FullIsSlug(name);
    CapIs(Full(name), max);
  }

  /** A smaller cap gives a prefix. */
  lemma PrefixUnderSmallerCap(name: string, max: nat, cap: nat)
    requires max <= cap
    ensures SlugBase(name, max) <= SlugBase(name, cap)
  {
    SlugForm(name, max);
    FullIsSlug(name);
    CapIs(Full(name), max);
    CapIsLongest(name, cap, SlugBase(name, max));
  }

  // ---- The words of a name --------------------------------------------------------------------

  lemma {:induction false} WordsChained(s: string, word: string)
    requires forall c :: c in word ==> IsSlugChar(c)
    ensures CutHyphens(word + Collapse(s, word == "")) == Join(Words(s, word))
    decreases |s|
  {
    if s == "" {
      assert word + "" == word;
      if word != "" {
        assert word[|word| - 1] in word;
      }
    } else if IsSlugChar(s[0]) {
      WordsChained(s[1..], word + [s[0]]);
      assert word + ([s[0]] + Collapse(s[1..], false)) == (word + [s[0]]) + Collapse(s[1..], false);
    } else if word == "" {
      WordsChained(s[1..], "");
      assert "" + ("" + Collapse(s[1..], true)) == "" + Collapse(s[1..], true);
      assert [] + Words(s[1..], "") == Words(s[1..], "");
    } else {
      WordsChained(s[1..], "");
      JoinEmpty(s[1..]);
      NoFrontHyphen(s[1..]);
      assert "" + Collapse(s[1..], true) == Collapse(s[1..], true);
      WordThen(Collapse(s[1..], true), Words(s[1..], ""), word);
    }
  }

  lemma WordThen(t: string, words: seq<string>, word: string)
    requires word != "" && forall c :: c in word ==> IsSlugChar(c)
    requires (words == [] <==> t == "") && (t != "" ==> IsSlugChar(t[0])) && CutHyphens(t) == Join(words)
    ensures CutHyphens(word + ("-" + t)) == Join([word] + words)
  {
    if CutHyphens(t) == "" {
      CutAll(word, t);
      assert [word] + [] == [word];
    } else {
      JoinWord(word, words);
      CutCat(word + "-", t);
      assert word + "-" + t == word + ("-" + t);
    }
  }

  lemma JoinWord(word: string, words: seq<string>)
    requires words != []
    ensures Join([word] + words) == word + "-" + Join(words)
  {
    assert ([word] + words)[1..] == words;
  }

  lemma {:induction false} CutCat(u: string, t: string)
    requires CutHyphens(t) != ""
    ensures CutHyphens(u + t) == u + CutHyphens(t)
    decreases |t|
  {
    if t[|t| - 1] == '-' {
      CutCat(u, t[..|t| - 1]);
      assert (u + t)[..|u + t| - 1] == u + t[..|t| - 1];
    }
  }

  lemma CutAll(word: string, t: string)
    requires word != "" && forall c :: c in word ==> IsSlugChar(c)
    requires CutHyphens(t) == "" && (t != "" ==> IsSlugChar(t[0]))
    ensures t == "" && CutHyphens(word + ("-" + t)) == word
  {
    if t != "" {
      CutCatFirst(t);
    }
    assert word[|word| - 1] in word;
    assert (word + ("-" + ""))[..|word|] == word;
  }

  lemma {:induction false} CutCatFirst(t: string)
    requires t != "" && IsSlugChar(t[0])
    ensures CutHyphens(t) != ""
    decreases |t|
  {
    if t[|t| - 1] == '-' {
      CutCatFirst(t[..|t| - 1]);
    }
  }

  /** No words, no slug. */
  lemma {:induction false} JoinEmpty(s: string)
    ensures Words(s, "") == [] <==> Collapse(s, true) == ""
  {
    if s != "" {
      if IsSlugChar(s[0]) {
        WordsSome(s[1..], "" + [s[0]]);
      } else {
        JoinEmpty(s[1..]);
        assert [] + Words(s[1..], "") == Words(s[1..], "");
      }
    }
  }

  lemma {:induction false} WordsSome(s: string, word: string)
    requires word != ""
    ensures Words(s, word) != []
    decreases |s|
  {
    if s != "" && IsSlugChar(s[0]) {
      WordsSome(s[1..], word + [s[0]]);
    }
  }

  /** Where the cap does not bite, the slug is the lower-cased name's words with a hyphen between each two. */
  lemma SlugIsWords(name: string, max: nat)
    requires |Full(name)| <= max
    ensures SlugBase(name, max) == Join(Words(Lower(name), ""))
  {
    DropIsInRun(Lower(name));
    WordsChained(Lower(name), "");
    assert "" + Collapse(Lower(name), true) == Collapse(Lower(name), true);
    FullIsSlug(name);
    CapIs(Full(name), max);
  }

  /** The tail is the end of the id, of the length asked for where the id has as much; else it is the whole id. */
  lemma TailIsEnd(base: string, id: string, len: nat)
    ensures var tail := TailOf(id, len);
      && SlugWithIdTail(base, id, len) == base + "-" + tail
      && (exists rest :: id == rest + tail) && |tail| == if 0 < len <= |id| then len else |id|
  {
    var tail := TailOf(id, len);
    assert id == id[..|id| - |tail|] + tail;
  }

  // ---- Tails ----------------------------------------------------------------------------------

  lemma HyphenInside(base: string, tail: string, other: string, rest: string)
    requires base + "-" + tail == other + "-" + rest && |base| < |other|
    ensures '-' in tail
  {
    assert (other + "-" + rest)[|other|] == '-';
    assert (base + "-" + tail)[|other|] == tail[|other| - |base| - 1];
  }

  lemma LastHyphen(base: string, tail: string, other: string, rest: string)
    requires base + "-" + tail == other + "-" + rest && '-' !in tail && '-' !in rest
    ensures |base| == |other|
  {
    if |base| < |other| {
      HyphenInside(base, tail, other, rest);
    } else if |other| < |base| {
      HyphenInside(other, rest, base, tail);
    }
  }

  /** Two slugs with id tails are equal exactly when their bases and tails are, as ids have no hyphens. */
  lemma TailsAreInjective(base: string, id: string, len: nat, other: string, otherId: string, otherLen: nat)
    requires '-' !in id && '-' !in otherId
    ensures SlugWithIdTail(base, id, len) == SlugWithIdTail(other, otherId, otherLen) <==>
      base == other && TailOf(id, len) == TailOf(otherId, otherLen)
  {
    var t, u := TailOf(id, len), TailOf(otherId, otherLen);
    if base + "-" + t == other + "-" + u {
      LastHyphen(base, t, other, u);
      assert base == (base + "-" + t)[..|base|];
      assert other == (other + "-" + u)[..|other|];
      assert t == (base + "-" + t)[|base| + 1..];
      assert u == (other + "-" + u)[|other| + 1..];
    }
  }
}
