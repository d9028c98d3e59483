/** The two attribute passes spelled out: what they insert, where, and when a link already has the attribute. */
module LinkSpelling {
  import opened JsText
  import opened OpenTags

  // ---- The presence test ----------------------------------------------------------------------

  /** `key` is written at `i`, at the start of a word and in any case, and an equals sign at `j` is the next thing after
      it that is not white space. */
  predicate AssignedAt(key: string, s: string, i: int, j: int) {
    && 0 <= i && i + |key| <= j < |s| && (i == 0 || !IsWord(s[i - 1])) && Lower(s[i..i + |key|]) == key
    && (forall k :: i + |key| <= k < j ==> IsSpace(s[k])) && s[j] == '='
  }

  lemma {:induction false} StartsIsLower(key: string, s: string)
    ensures StartsCi(key, s) <==> |key| <= |s| && Lower(s[..|key|]) == key
  {
    if key == "" {
      assert s[..0] == "";
    } else if s != "" {
      StartsIsLower(key[1..], s[1..]);
      if |key| <= |s| {
        assert s[..|key|][1..] == s[1..][..|key| - 1];
        assert key == [key[0]] + key[1..];
      }
    }
  }

  lemma TrimStartBlank(s: string)
    ensures |TrimStart(s)| <= |s| && TrimStart(s) == s[|s| - |TrimStart(s)|..]
    ensures forall k :: 0 <= k < |s| - |TrimStart(s)| ==> IsSpace(s[k])
    ensures TrimStart(s) != "" ==> !IsSpace(TrimStart(s)[0])
  {
    hide IsSpace, TrimStart;
    TrimStartIs(s);
    BlankBefore(s);
    forall k | 0 <= k < |s| - |TrimStart(s)| ensures IsSpace(s[k]) {
      RunAt(IsSpace, s[..|s| - |TrimStart(s)|], k);
    }
  }

  lemma KeyAtIff(key: string, s: string)
    ensures KeyAt(key, s) <==> exists j :: AssignedAt(key, s, 0, j)
  {
    StartsIsLower(key, s);
    if |key| <= |s| {
      var u := s[|key|..];
      var n := |u| - |TrimStart(u)|;
      TrimStartBlank(u);
      assert s[0..0 + |key|] == s[..|key|];
      assert forall k :: |key| <= k < |s| ==> s[k] == u[k - |key|];
      if KeyAt(key, s) {
        assert AssignedAt(key, s, 0, |key| + n);
      }
      if j :| AssignedAt(key, s, 0, j) {
        assert !IsSpace('=');
        assert j == |key| + n;
      }
    }
  }

  lemma Later(key: string, s: string, i: int, j: int)
    requires s != "" && i > 0
    ensures AssignedAt(key, s, i, j) && (i == 1 ==> !IsWord(s[0])) <==>
            AssignedAt(key, s[1..], i - 1, j - 1) && (i == 1 ==> !IsWord(s[0]))
  {
    if i + |key| <= |s| {
      assert s[1..][i - 1..i - 1 + |key|] == s[i..i + |key|];
    }
    assert forall k :: 0 <= k < |s| - 1 ==> s[1..][k] == s[k + 1];
    assert forall k :: 1 <= k < |s| ==> s[k] == s[1..][k - 1];
  }

  ghost predicate Assigned(key: string, afterWord: bool, s: string) {
    exists i, j :: AssignedAt(key, s, i, j) && (i == 0 ==> !afterWord)
  }

  lemma {:induction false} HasKeyIff(key: string, afterWord: bool, s: string)
    ensures HasKey(key, afterWord, s) <==> Assigned(key, afterWord, s)
    decreases |s|
  {
    hide AssignedAt, KeyAt;
    if s == "" {
      NoneInEmpty(key);
    } else {
      KeyAtIff(key, s);
      HasKeyIff(key, IsWord(s[0]), s[1..]);
      if HasKey(key, afterWord, s) {
        if !afterWord && KeyAt(key, s) {
          var j :| AssignedAt(key, s, 0, j);
        } else {
          var i, j :| AssignedAt(key, s[1..], i, j) && (i == 0 ==> !IsWord(s[0]));
          NotNegative(key, s[1..], i, j);
          Later(key, s, i + 1, j + 1);
          assert AssignedAt(key, s, i + 1, j + 1);
        }
      }
      if i, j :| AssignedAt(key, s, i, j) && (i == 0 ==> !afterWord) {
        NotNegative(key, s, i, j);
        if i > 0 {
          Later(key, s, i, j);
          assert AssignedAt(key, s[1..], i - 1, j - 1);
        }
      }
    }
  }

  lemma NoneInEmpty(key: string)
    ensures !exists i, j :: AssignedAt(key, "", i, j)
  {
  }

  lemma NotNegative(key: string, s: string, i: int, j: int)
    requires AssignedAt(key, s, i, j)
    ensures i >= 0 && (i == 1 ==> !IsWord(s[0]))
  {
  }

  /** A pass takes an attribute for present exactly where its name stands at the start of a word with an equals sign
      behind it. */
  lemma PresenceIff(key: string, attrs: string)
    ensures HasKey(key, false, attrs) <==> exists i, j :: AssignedAt(key, attrs, i, j)
  {
    HasKeyIff(key, false, attrs);
    if i, j :| AssignedAt(key, attrs, i, j) {
      assert Assigned(key, false, attrs);
    }
  }

  // ---- What is inserted -----------------------------------------------------------------------

  /** Attribute text that leaves no quote open and has no '>' outside quotes. */
  predicate Balanced(attrs: string) {
    TagEnd(Plain, attrs) == |attrs| && QuoteAfter(Plain, attrs) == Plain && (attrs != "" ==> IsSpace(attrs[0]))
  }

  lemma FirstIsRewritten(a: Attr, s: string, tag: string, rest: string)
    requires MatchA(s) > 0 && tag == s[..MatchA(s)] && rest == s[MatchA(s)..]
    ensures Rewrite(a, s) == Ensure(a, tag) + Rewrite(a, rest)
  {
    hide MatchA, Ensure;
  }

  lemma Regroup(head: string, attrs: string, insertion: string, rest: string)
    ensures head + (attrs + ">") + rest == head + (attrs + (">" + rest))
    ensures head + (attrs + (insertion + ">")) + rest == head + attrs + insertion + ">" + rest
  {
  }

  predicate OpensLink(head: string) { |head| == 2 && head[0] == '<' && LowerChar(head[1]) == 'a' }

  /** One link tag at the front of the text. */
  lemma FrontTag(a: Attr, head: string, attrs: string, rest: string)
    requires OpensLink(head) && Balanced(attrs)
    ensures var s := head + (attrs + (">" + rest));
      Rewrite(a, s) ==
        if HasKey(a.key, false, attrs) then head + (attrs + (">" + Rewrite(a, rest)))
        else "<a" + attrs + Insertion(a) + ">" + Rewrite(a, rest)
  {
    hide HasKey, Insertion, TagEnd, QuoteAfter, MatchA, Rewrite;
    var s := head + (attrs + (">" + rest));
    BalancedMatches(head, attrs, rest);
    BalancedParts(head, attrs, rest);
    FirstIsRewritten(a, s, head + (attrs + ">"), rest);
    Regroup(head, attrs, "", Rewrite(a, rest));
    Regroup("<a", attrs, Insertion(a), Rewrite(a, rest));
  }

  lemma InsertionText(a: Attr)
    ensures Insertion(a) == " " + a.key + "=\"" + a.value + "\""
  {
  }

  lemma TargetText()
    ensures Insertion(TARGET) == " target=\"" + "_blank" + "\""
  {
    InsertionText(TARGET);
    assert " " + "target" + "=\"" == " target=\"";
  }

  lemma RelText()
    ensures Insertion(REL) == " rel=\"" + "noopener noreferrer nofollow ugc" + "\""
  {
    hide REL_PEER, REL_RANK;
    InsertionText(REL);
    RelValue();
    assert " " + "rel" + "=\"" == " rel=\"";
  }

  lemma RelValue()
    ensures REL_PEER + REL_RANK == "noopener noreferrer nofollow ugc"
  {
  }

  /** A link without the attribute opens in a new tab; one that has it is left alone. */
  lemma TargetIsAdded(head: string, attrs: string, rest: string)
    requires OpensLink(head) && Balanced(attrs)
    ensures var s := head + (attrs + (">" + rest));
      EnsureLinkTarget(s) ==
        if exists i, j :: AssignedAt("target", attrs, i, j) then head + (attrs + (">" + EnsureLinkTarget(rest)))
        else "<a" + attrs + (" target=\"" + "_blank" + "\"") + ">" + EnsureLinkTarget(rest)
  {
    hide Rewrite, AssignedAt, HasKey, Balanced, Insertion;
    PresenceIff("target", attrs);
    FrontTag(TARGET, head, attrs, rest);
    TargetText();
  }

  /** A link without a rel gets the four tokens. */
  lemma RelIsAdded(head: string, attrs: string, rest: string)
    requires OpensLink(head) && Balanced(attrs)
    ensures var s := head + (attrs + (">" + rest));
      InjectRel(s) ==
        if exists i, j :: AssignedAt("rel", attrs, i, j) then head + (attrs + (">" + InjectRel(rest)))
        else "<a" + attrs + (" rel=\"" + "noopener noreferrer nofollow ugc" + "\"") + ">" + InjectRel(rest)
  {
    hide Rewrite, AssignedAt, HasKey, Balanced, Insertion, REL_PEER, REL_RANK;
    PresenceIff("rel", attrs);
    FrontTag(REL, head, attrs, rest);
    RelText();
  }
}
