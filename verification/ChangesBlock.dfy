/** "Add the changes to the abstract" (src/components/SubmitGovAction.tsx:281-286, 805-839, with changesParagraph of
    src/lib/governance/paramDefs.ts): a generated paragraph replaces an earlier one in the abstract or is appended. */
module ChangesBlock {
  import opened JsText

  const HEADER := "Changes:\n\n- "

  const INFO_ABSTRACT_MAX := 2500

  // ---- The recogniser -------------------------------------------------------------------------

  /** What `^` under the `m` flag accepts before a line. */
  predicate IsLineEnd(c: char) { c == '\n' || c == '\r' || c as int == 0x2028 || c as int == 0x2029 }

  predicate IsBullet(s: string) { |s| >= 3 && s[0] == '\n' && s[1] == '-' && s[2] == ' ' }

  /** Length of the rest of a block: a line, and every bullet line right after it. */
  function Tail(s: string): (n: nat)
    ensures n <= |s|
  {
    if s == "" then 0
    else if s[0] != '\n' then 1 + Tail(s[1..])
    else if IsBullet(s) then 3 + Tail(s[3..])
    else 0
  }

  /** Length of the block that starts `s`. */
  function BlockLen(s: string): (n: nat)
    requires HEADER <= s
    ensures |HEADER| <= n <= |s|
  {
    |HEADER| + Tail(s[|HEADER|..])
  }

  /** Where the first block starts, the length of `s` if there is none; `start` says whether `s` starts a line. */
  function BlockAt(s: string, start: bool): (n: nat)
    ensures n <= |s| && (n < |s| ==> HEADER <= s[n..])
    decreases |s|
  {
    if s == "" then 0
    else if start && HEADER <= s then 0
    else
      assert s[1..][BlockAt(s[1..], IsLineEnd(s[0]))..] == s[1 + BlockAt(s[1..], IsLineEnd(s[0]))..];
      1 + BlockAt(s[1..], IsLineEnd(s[0]))
  }

  /** `GENERATED_CHANGES_BLOCK.exec(s)?.[0]`. */
  function FirstBlock(s: string): Option<string> {
    var i := BlockAt(s, true);
    if i < |s| then Some(s[i..][..BlockLen(s[i..])]) else None
  }

  // ---- The edit -------------------------------------------------------------------------------

  /** Where `b` first occurs in `s`, the length of `s` if it does not. */
  function IndexOf(s: string, b: string): (n: nat)
    ensures n <= |s| && (n < |s| ==> b <= s[n..])
  {
    if s == "" then 0
    else if b <= s then 0
    else
      assert s[1..][IndexOf(s[1..], b)..] == s[1 + IndexOf(s[1..], b)..];
      1 + IndexOf(s[1..], b)
  }

  /** `s.replace(b, () => p)`: the first occurrence of the text `b`. */
  function Replace(s: string, b: string, p: string): string {
    var j := IndexOf(s, b);
    if j < |s| then s[..j] + p + s[j..][|b|..] else s
  }

  function WithChanges(a: string, p: string): string {
    match FirstBlock(a)
    case Some(b) => Replace(a, b, p)
    case None => if TrimEnd(a) != "" then TrimEnd(a) + "\n\n" + p else p
  }

  predicate AlreadyAdded(a: string, p: string) { p != "" && FirstBlock(a) == Some(p) }

  predicate RoomLeft(a: string, p: string) { AlreadyAdded(a, p) || |WithChanges(a, p)| <= INFO_ABSTRACT_MAX }

  /** The abstract after a click on the button. */
  function AddChanges(a: string, p: string): string {
    if p == "" || AlreadyAdded(a, p) || !RoomLeft(a, p) then a else WithChanges(a, p)
  }

  // ---- The paragraph --------------------------------------------------------------------------

  function Bullets(lines: seq<string>): string {
    if lines == [] then "" else "\n- " + lines[0] + Bullets(lines[1..])
  }

  /** `changesParagraph`, from its lines without the leading "- ". */
  function Paragraph(lines: seq<string>): string {
    if lines == [] then "" else HEADER + lines[0] + Bullets(lines[1..])
  }

  predicate OneLine(s: string) { '\n' !in s }

  /** A text that is one block from end to end. */
  predicate IsBlock(p: string) { HEADER <= p && BlockLen(p) == |p| }

  /** A text that ends the block before it. */
  predicate Stops(r: string) { r == "" || (r[0] == '\n' && !IsBullet(r)) }

  lemma {:induction false} TailCat(s: string, r: string)
    requires Tail(s) == |s| && Stops(r)
    ensures Tail(s + r) == |s|
    decreases |s|
  {
    if s == "" {
      assert s + r == r;
    } else if s[0] != '\n' {
      TailCat(s[1..], r);
      assert (s + r)[1..] == s[1..] + r;
    } else {
      TailCat(s[3..], r);
      assert (s + r)[3..] == s[3..] + r;
    }
  }

  lemma {:induction false} TailStops(s: string)
    ensures Stops(s[Tail(s)..]) && Tail(s[..Tail(s)]) == Tail(s)
    decreases |s|
  {
    var n := Tail(s);
    if s == "" {
    } else if s[0] != '\n' {
      TailStops(s[1..]);
      assert s[1..][n - 1..] == s[n..];
      assert s[..n][1..] == s[1..][..n - 1];
    } else if IsBullet(s) {
      TailStops(s[3..]);
      assert s[3..][n - 3..] == s[n..];
      assert s[..n][3..] == s[3..][..n - 3];
    }
  }

  lemma {:induction false} LineTail(line: string, r: string)
    requires OneLine(line)
    ensures Tail(line + r) == |line| + Tail(r)
    decreases |line|
  {
    if line == "" {
      assert line + r == r;
    } else {
      assert line == [line[0]] + line[1..];
      LineTail(line[1..], r);
      assert (line + r)[1..] == line[1..] + r;
    }
  }

  lemma {:induction false} BulletsTail(lines: seq<string>)
    requires forall l :: l in lines ==> OneLine(l)
    ensures Tail(Bullets(lines)) == |Bullets(lines)|
    decreases |lines|
  {
    if lines != [] {
      BulletsTail(lines[1..]);
      LineTail(lines[0], Bullets(lines[1..]));
      var s := Bullets(lines);
      assert s == "\n- " + (lines[0] + Bullets(lines[1..]));
      assert s[3..] == lines[0] + Bullets(lines[1..]);
    }
  }

  lemma HeadedIsBlock(t: string)
    requires Tail(t) == |t|
    ensures IsBlock(HEADER + t)
  {
    hide Tail;
    assert (HEADER + t)[|HEADER|..] == t;
  }

  lemma Headed(line: string, bullets: string)
    ensures HEADER + line + bullets == HEADER + (line + bullets)
  {
  }

  lemma LineThenBullets(line: string, bullets: string)
    requires OneLine(line) && Tail(bullets) == |bullets|
    ensures IsBlock(HEADER + line + bullets)
  {
    hide OneLine, IsBlock, Tail;
    LineTail(line, bullets);
    HeadedIsBlock(line + bullets);
    Headed(line, bullets);
  }

  /** Whatever the changed parameters are, the paragraph written for them is recognised as one whole block. */
  lemma ParagraphIsBlock(lines: seq<string>)
    requires lines != [] && forall l :: l in lines ==> OneLine(l)
    ensures IsBlock(Paragraph(lines))
  {
    hide IsBlock, Tail, Bullets, OneLine;
    BulletsTail(lines[1..]);
    LineThenBullets(lines[0], Bullets(lines[1..]));
  }
}
