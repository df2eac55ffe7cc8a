/** ASCII text as the server's string helpers treat it: trimming, lower-casing,
    decimal printing, and splitting or joining on one separator. On ASCII input these
    agree with Go's `strings` and `strconv`; Unicode case and space tables are not modelled. */
module Text {

  predicate IsSpace(c: char) {
    c == ' ' || '\t' <= c <= '\r'
  }

  predicate AllSpace(s: string) {
    forall i :: 0 <= i < |s| ==> IsSpace(s[i])
  }

  /** Neither end of `s` is a space. */
  predicate Tight(s: string) {
    s != [] ==> !IsSpace(s[0]) && !IsSpace(s[|s| - 1])
  }

  function LowerChar(c: char): char {
    if 'A' <= c <= 'Z' then (c as int + 32) as char else c
  }

  function ToLower(s: string): (r: string)
    ensures |r| == |s|
    ensures forall i :: 0 <= i < |s| ==> r[i] == LowerChar(s[i])
  {
    seq(|s|, i requires 0 <= i < |s| => LowerChar(s[i]))
  }

  const UPPER := "ABCDEFGHIJKLMNOPQRSTUVWXYZ"
  const LOWER := "abcdefghijklmnopqrstuvwxyz"

  lemma Alphabet(i: nat)
    requires i < 26
    ensures UPPER[i] as int == 65 + i && LOWER[i] as int == 97 + i
  {
  }

  /** Lower-casing maps each capital letter to its small one. */
  lemma LowerLetter(i: nat)
    requires i < 26
    ensures LowerChar(UPPER[i]) == LOWER[i]
  {
    Alphabet(i);
  }

  /** And it leaves every other character alone. */
  lemma LowerOther(c: char)
    requires c !in UPPER
    ensures LowerChar(c) == c
  {
    Capitals(c);
  }

  lemma Capitals(c: char)
    ensures 'A' <= c <= 'Z' ==> c in UPPER
  {
    if 'A' <= c <= 'Z' {
      Alphabet(c as int - 65);
      assert UPPER[c as int - 65] == c;
    }
  }

  /** The ASCII spaces: tab, line feed, vertical tab, form feed, carriage return and space. */
  lemma SpacesExactly(c: char)
    ensures IsSpace(c) <==> c as int in {9, 10, 11, 12, 13, 32}
  {
  }

  function TrimLeft(s: string): string {
    if s != [] && IsSpace(s[0]) then TrimLeft(s[1..]) else s
  }

  function TrimRight(s: string): string {
    if s != [] && IsSpace(s[|s| - 1]) then TrimRight(s[..|s| - 1]) else s
  }

  function Trim(s: string): string {
    TrimRight(TrimLeft(s))
  }

  /** The server's `normalize`: what roles, user names and allowlist items are compared by. */
  function Normalize(s: string): string {
    ToLower(Trim(s))
  }

  lemma {:induction false} TrimLeftSplits(s: string) returns (pre: string)
    ensures AllSpace(pre) && s == pre + TrimLeft(s)
    ensures TrimLeft(s) != [] ==> !IsSpace(TrimLeft(s)[0])
  {
    if s != [] && IsSpace(s[0]) {
      var p := TrimLeftSplits(s[1..]);
      assert s == [s[0]] + (p + TrimLeft(s)) == [s[0]] + p + TrimLeft(s);
      pre := [s[0]] + p;
    } else {
      pre := [];
    }
  }

  lemma {:induction false} TrimRightSplits(s: string) returns (post: string)
    ensures AllSpace(post) && s == TrimRight(s) + post
    ensures TrimRight(s) != [] ==> !IsSpace(TrimRight(s)[|TrimRight(s)| - 1])
  {
    if s != [] && IsSpace(s[|s| - 1]) {
      var p := TrimRightSplits(s[..|s| - 1]);
      assert s == (TrimRight(s) + p) + [s[|s| - 1]] == TrimRight(s) + (p + [s[|s| - 1]]);
      post := p + [s[|s| - 1]];
    } else {
      post := [];
    }
  }

  /** Trim cuts spaces off both ends and nothing else. */
  lemma TrimSplits(s: string) returns (pre: string, post: string)
    ensures AllSpace(pre) && AllSpace(post) && Tight(Trim(s))
    ensures s == pre + Trim(s) + post
  {
    pre := TrimLeftSplits(s);
    post := TrimRightSplits(TrimLeft(s));
  }

  lemma {:induction false} TrimLeftDrops(pre: string, s: string)
    requires AllSpace(pre)
    ensures TrimLeft(pre + s) == TrimLeft(s)
  {
    if pre == [] {
      assert pre + s == s;
    } else {
      assert (pre + s)[1..] == pre[1..] + s;
      TrimLeftDrops(pre[1..], s);
    }
  }

  lemma {:induction false} TrimRightDrops(s: string, post: string)
    requires AllSpace(post)
    ensures TrimRight(s + post) == TrimRight(s)
  {
    if post == [] {
      assert s + post == s;
    } else {
      assert (s + post)[..|s + post| - 1] == s + post[..|post| - 1];
      TrimRightDrops(s, post[..|post| - 1]);
    }
  }

  /** Together with TrimSplits: the tight core of a padded string is unique, and Trim returns it. */
  lemma TrimUnique(pre: string, t: string, post: string)
    requires AllSpace(pre) && AllSpace(post) && Tight(t)
    ensures Trim(pre + t + post) == t
  {
    assert pre + t + post == pre + (t + post);
    TrimLeftDrops(pre, t + post);
    if t == [] {
      assert t + post == post + [];
      TrimLeftDrops(post, []);
    } else {
      TrimRightDrops(t, post);
    }
  }

  lemma TrimTight(t: string)
    requires Tight(t)
    ensures Trim(t) == t
  {
    TrimUnique([], t, []);
    assert [] + t + [] == t;
  }

  lemma LowerConcat(a: string, b: string)
    ensures ToLower(a + b) == ToLower(a) + ToLower(b)
  {
  }

  lemma LowerKeepsTight(s: string)
    requires Tight(s)
    ensures Tight(ToLower(s))
  {
  }

  lemma NormalizeTight(s: string)
    ensures Tight(Normalize(s))
    ensures Normalize(Normalize(s)) == Normalize(s)
  {
    var _, _ := TrimSplits(s);
    LowerKeepsTight(Trim(s));
    TrimTight(Normalize(s));
    assert ToLower(ToLower(Trim(s))) == ToLower(Trim(s));
  }

  // ---- Decimal printing ----

  predicate IsDigit(c: char) {
    '0' <= c <= '9'
  }

  predicate AllDigits(s: string) {
    forall i :: 0 <= i < |s| ==> IsDigit(s[i])
  }

  function DigitChar(d: nat): (c: char)
    requires d < 10
    ensures IsDigit(c)
  {
    ('0' as int + d) as char
  }

  /** `strconv.Itoa` on naturals. */
  function Decimal(n: nat): (s: string)
    ensures s != [] && AllDigits(s)
  {
    if n < 10 then [DigitChar(n)] else Decimal(n / 10) + [DigitChar(n % 10)]
  }

  function Zeros(k: nat): (s: string)
    ensures |s| == k && forall i :: 0 <= i < k ==> s[i] == '0'
  {
    seq(k, _ => '0')
  }

  /** The `%06d` verb: at least six digits, padded on the left with zeros. */
  function Padded6(n: nat): string {
    var d := Decimal(n);
    if |d| < 6 then Zeros(6 - |d|) + d else d
  }

  function ParseDecimal(s: string): nat
    requires AllDigits(s)
  {
    if s == [] then 0
    else ParseDecimal(s[..|s| - 1]) * 10 + (s[|s| - 1] as int - '0' as int)
  }

  lemma {:induction false} ParseInvertsDecimal(n: nat)
    ensures ParseDecimal(Decimal(n)) == n
  {
    if n < 10 {
      assert Decimal(n)[..0] == [];
    } else {
      ParseInvertsDecimal(n / 10);
      assert Decimal(n)[..|Decimal(n)| - 1] == Decimal(n / 10);
    }
  }

  lemma {:induction false} ParseIgnoresLeadingZeros(k: nat, s: string)
    requires AllDigits(s)
    ensures AllDigits(Zeros(k) + s) && ParseDecimal(Zeros(k) + s) == ParseDecimal(s)
    decreases k + |s|
  {
    var z := Zeros(k) + s;
    if s != [] {
      assert z[..|z| - 1] == Zeros(k) + s[..|s| - 1];
      ParseIgnoresLeadingZeros(k, s[..|s| - 1]);
    } else if k > 0 {
      assert z[..|z| - 1] == Zeros(k - 1) + [];
      ParseIgnoresLeadingZeros(k - 1, []);
    }
  }

  /** Zero-padded printing loses nothing: it can be read back, so it is injective. */
  lemma ParseInvertsPadded(n: nat)
    ensures AllDigits(Padded6(n)) && ParseDecimal(Padded6(n)) == n
  {
    ParseInvertsDecimal(n);
    var d := Decimal(n);
    if |d| < 6 {
      ParseIgnoresLeadingZeros(6 - |d|, d);
    }
  }

  /** No digit too many: only zero starts with a zero. */
  lemma {:induction false} DecimalShape(n: nat)
    ensures n > 0 ==> Decimal(n)[0] != '0'
  {
    if n < 10 {
    } else {
      DecimalShape(n / 10);
      assert Decimal(n)[0] == Decimal(n / 10)[0];
    }
  }

  /** At least six digits, and padding only up to six. */
  lemma PaddedShape(n: nat)
    ensures |Padded6(n)| >= 6
    ensures |Padded6(n)| > 6 ==> Padded6(n)[0] != '0'
  {
    DecimalShape(n);
    if n == 0 {
      assert |Decimal(n)| == 1;
    }
  }

  // ---- One-character separators ----

  predicate Free(s: string, sep: char) {
    sep !in s
  }

  /** `strings.Split` on a one-character separator: never empty, one item per gap. */
  function Split(s: string, sep: char): (items: seq<string>)
    ensures |items| > 0
    ensures forall k :: 0 <= k < |items| ==> Free(items[k], sep)
  {
    if s == [] then [[]]
    else
      var rest := Split(s[1..], sep);
      if s[0] == sep then [[]] + rest else [[s[0]] + rest[0]] + rest[1..]
  }

  /** `strings.Join`. */
  function Join(items: seq<string>, sep: char): string {
    if items == [] then []
    else if |items| == 1 then items[0]
    else items[0] + [sep] + Join(items[1..], sep)
  }

  lemma {:induction false} SplitPrefix(item: string, s: string, sep: char)
    requires Free(item, sep)
    ensures Split(item + [sep] + s, sep) == [item] + Split(s, sep)
  {
    if item == [] {
      assert [] + [sep] + s == [sep] + s;
      assert ([sep] + s)[1..] == s;
    } else {
      var all := item + [sep] + s;
      assert all[1..] == item[1..] + [sep] + s;
      SplitPrefix(item[1..], s, sep);
      var rest := Split(all[1..], sep);
      assert rest[0] == item[1..] && rest[1..] == Split(s, sep);
      assert all[0] == item[0] && item[0] in item;
      assert [item[0]] + item[1..] == item;
    }
  }

  lemma {:induction false} SplitFree(item: string, sep: char)
    requires Free(item, sep)
    ensures Split(item, sep) == [item]
  {
    if item == [] {
    } else {
      assert item[0] in item;
      SplitFree(item[1..], sep);
      assert [item[0]] + item[1..] == item;
    }
  }

  /** Split inverts Join on separator-free items, except that the empty list prints like
      the list holding one empty item. */
  lemma {:induction false} SplitInvertsJoin(items: seq<string>, sep: char)
    requires forall k :: 0 <= k < |items| ==> Free(items[k], sep)
    ensures Split(Join(items, sep), sep) == if items == [] then [[]] else items
  {
    if |items| == 1 {
      SplitFree(items[0], sep);
    } else if |items| > 1 {
      SplitPrefix(items[0], Join(items[1..], sep), sep);
      SplitInvertsJoin(items[1..], sep);
    }
  }
}
