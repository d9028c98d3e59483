/** The character classes and string helpers of the modelled JavaScript, over `string`.
    A `char` stands for one UTF-16 code unit; none of the modelled code looks at surrogate pairs. */
module JsText {

  datatype Option<+T> = None | Some(value: T)

  datatype Result<+T, +E> = Ok(value: T) | Err(error: E)

  predicate IsDigit(c: char) { '0' <= c <= '9' }

  predicate IsLetter(c: char) { 'a' <= c <= 'z' || 'A' <= c <= 'Z' }

  /** `[0-9a-z]` under the `i` flag. */
  predicate IsAlnum(c: char) { IsDigit(c) || IsLetter(c) }

  /** `\w`. */
  predicate IsWord(c: char) { IsAlnum(c) || c == '_' }

  /** `[0-9a-f]` under the `i` flag. */
  predicate IsHex(c: char) { IsDigit(c) || 'a' <= c <= 'f' || 'A' <= c <= 'F' }

  /** `\s`, which is also what `trim` removes. */
  predicate IsSpace(c: char) {
    var n := c as int;
    9 <= n <= 13 || n in {32, 0xA0, 0x1680, 0x2028, 0x2029, 0x202F, 0x205F, 0x3000, 0xFEFF} || 0x2000 <= n <= 0x200A
  }

  function LowerChar(c: char): char {
    if 'A' <= c <= 'Z' then c - 'A' + 'a' else c
  }

  /** `toLowerCase` on ASCII; other characters are left as they are. */
  function Lower(s: string): (r: string)
    ensures |r| == |s|
  {
    if s == "" then "" else [LowerChar(s[0])] + Lower(s[1..])
  }

  lemma {:induction false} LowerAt(s: string, i: nat)
    requires i < |s|
    ensures Lower(s)[i] == LowerChar(s[i])
  {
    if i > 0 {
      LowerAt(s[1..], i - 1);
    }
  }

  /** Length of the longest prefix whose characters all satisfy `p`. */
  function Run(p: char -> bool, s: string): (n: nat)
    ensures n <= |s|
    ensures n < |s| ==> !p(s[n])
  {
    if s == "" || !p(s[0]) then 0 else 1 + Run(p, s[1..])
  }

  lemma {:induction false} RunAt(p: char -> bool, s: string, i: nat)
    requires i < Run(p, s)
    ensures p(s[i])
  {
    if i > 0 {
      RunAt(p, s[1..], i - 1);
    }
  }

  lemma {:induction false} RunIs(p: char -> bool, s: string, n: nat)
    requires n <= |s| && (forall i :: 0 <= i < n ==> p(s[i])) && (n < |s| ==> !p(s[n]))
    ensures Run(p, s) == n
  {
    if n > 0 {
      RunIs(p, s[1..], n - 1);
    }
  }

  predicate All(p: char -> bool, s: string) {
    Run(p, s) == |s|
  }

  /** `prefix` (written in lower case) starts `s`, ignoring ASCII case. */
  predicate StartsCi(prefix: string, s: string)
    ensures StartsCi(prefix, s) ==> |prefix| <= |s|
  {
    prefix == "" || (s != "" && LowerChar(s[0]) == prefix[0] && StartsCi(prefix[1..], s[1..]))
  }

  lemma {:induction false} StartsHead(prefix: string, r: string)
    requires forall i :: 0 <= i < |prefix| ==> LowerChar(prefix[i]) == prefix[i]
    ensures StartsCi(prefix, prefix + r)
  {
    if prefix != "" {
      StartsHead(prefix[1..], r);
      assert (prefix + r)[1..] == prefix[1..] + r;
    }
  }

  /** Position of the first `c`, or `|s|` when there is none. */
  function Find(c: char, s: string): (k: nat)
    ensures k <= |s|
    ensures k < |s| ==> s[k] == c
  {
    if s == "" || s[0] == c then 0 else 1 + Find(c, s[1..])
  }

  lemma {:induction false} FindAt(c: char, s: string, i: nat)
    requires i < Find(c, s)
    ensures s[i] != c
  {
    if i > 0 {
      FindAt(c, s[1..], i - 1);
    }
  }

  lemma {:induction false} FindIs(c: char, s: string, k: nat)
    requires k <= |s| && (forall i :: 0 <= i < k ==> s[i] != c) && (k < |s| ==> s[k] == c)
    ensures Find(c, s) == k
  {
    if k > 0 {
      FindIs(c, s[1..], k - 1);
    }
  }

  lemma {:induction false} FindCat(c: char, a: string, b: string)
    ensures Find(c, a + b) == if Find(c, a) < |a| then Find(c, a) else |a| + Find(c, b)
  {
    if a == "" {
      assert a + b == b;
    } else {
      FindCat(c, a[1..], b);
      assert (a + b)[1..] == a[1..] + b;
    }
  }

  lemma {:induction false} FindNone(c: char, s: string)
    ensures Find(c, s) == |s| <==> c !in s
  {
    if s != "" {
      FindNone(c, s[1..]);
      assert s == [s[0]] + s[1..];
    }
  }

  /** The value of a string of decimal digits. */
  function DecimalValue(s: string): nat {
    if s == "" then 0 else 10 * DecimalValue(s[..|s| - 1]) + DigitValue(s[|s| - 1])
  }

  function DigitValue(c: char): nat {
    if IsDigit(c) then c as nat - '0' as nat else 0
  }

  function TrimStart(s: string): string {
    if s != "" && IsSpace(s[0]) then TrimStart(s[1..]) else s
  }

  function TrimEnd(s: string): string {
    if s != "" && IsSpace(s[|s| - 1]) then TrimEnd(s[..|s| - 1]) else s
  }

  function Trim(s: string): string {
    TrimEnd(TrimStart(s))
  }

  lemma {:induction false} TrimStartIs(s: string)
    ensures var r := TrimStart(s); |r| <= |s| && r == s[|s| - |r|..] && (r != "" ==> !IsSpace(r[0]))
  {
    if s != "" {
      TrimStartIs(s[1..]);
    }
  }

  /** `Trim` removes white space from both ends and nothing else. */
  lemma TrimIs(s: string) returns (a: string, b: string)
    ensures s == a + Trim(s) + b && All(IsSpace, a) && All(IsSpace, b)
    ensures Trim(s) != "" ==> !IsSpace(Trim(s)[0]) && !IsSpace(Trim(s)[|Trim(s)| - 1])
  {
    var t := TrimStart(s);
    TrimStartIs(s);
    TrimEndIs(t);
    a, b := s[..|s| - |t|], t[|TrimEnd(t)|..];
    BlankBefore(s);
    BlankBehind(t);
  }

  lemma {:induction false} BlankBefore(s: string)
    ensures |TrimStart(s)| <= |s| && All(IsSpace, s[..|s| - |TrimStart(s)|])
  {
    if s != "" && IsSpace(s[0]) {
      BlankBefore(s[1..]);
      assert s[..|s| - |TrimStart(s)|][1..] == s[1..][..|s| - 1 - |TrimStart(s)|];
    }
  }

  lemma {:induction false} BlankBehind(s: string)
    ensures |TrimEnd(s)| <= |s| && All(IsSpace, s[|TrimEnd(s)|..])
  {
    var k := |TrimEnd(s)|;
    if s != "" && IsSpace(s[|s| - 1]) {
      BlankBehind(s[..|s| - 1]);
      forall i | k <= i < |s| ensures IsSpace(s[i]) {
        if i < |s| - 1 {
          RunAt(IsSpace, s[..|s| - 1][k..], i - k);
        }
      }
      assert forall i :: 0 <= i < |s| - k ==> s[k..][i] == s[k + i];
      RunIs(IsSpace, s[k..], |s| - k);
    }
  }

  lemma {:induction false} TrimEndIs(s: string)
    ensures var r := TrimEnd(s); |r| <= |s| && r == s[..|r|] && (r != "" ==> !IsSpace(r[|r| - 1]))
  {
    if s != "" {
      TrimEndIs(s[..|s| - 1]);
    }
  }
}
