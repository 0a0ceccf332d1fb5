/** Small value types and string operations shared by every package of the model:
    an Option for Go's nilable results, substring containment, decimal rendering of
    integers (the `%d` verb), Go's `strings.TrimSpace`, `strings.IndexRune` and the
    `%5s` left padding. */
module Common {

  datatype Option<+T> = None | Some(value: T)

  /** `sub` occurs somewhere inside `s` (Go's strings.Contains). */
  ghost predicate Contains<T>(s: seq<T>, sub: seq<T>) {
    exists k :: 0 <= k <= |s| && sub <= s[k..]
  }

  lemma ContainsMiddle<T>(a: seq<T>, b: seq<T>, c: seq<T>)
    ensures Contains(a + b + c, b)
  {
    assert (a + b + c)[|a|..] == b + c;
  }

  lemma ContainsPrefix<T>(s: seq<T>, sub: seq<T>)
    requires sub <= s
    ensures Contains(s, sub)
  {
    assert s[0..] == s;
  }

  lemma PrefixAppend<T>(p: seq<T>, q: seq<T>, r: seq<T>)
    requires p <= q
    ensures p <= q + r
  {
    assert (q + r)[..|q|] == q;
  }

  lemma ConcatAssoc<T>(a: seq<T>, b: seq<T>, c: seq<T>)
    ensures a + b + c == a + (b + c)
  {
  }

  /** The three parts of a concatenation can be read back from it. */
  lemma Parts3<T>(a: seq<T>, b: seq<T>, c: seq<T>)
    ensures a <= a + b + c
    ensures (a + b + c)[|a|..] == b + c
    ensures (a + b + c)[|a| + |b|..] == c
    ensures c == [] ==> a + b + c == a + b
  {
    assert (a + b + c)[..|a|] == a;
  }

  /** The four parts of a concatenation can be read back from it. */
  lemma Parts4<T>(a: seq<T>, b: seq<T>, c: seq<T>, d: seq<T>)
    ensures var r := a + b + c + d;
            && |r| == |a| + |b| + |c| + |d| && a <= r
            && r[|a|..|a| + |b|] == b && r[|a| + |b|..|a| + |b| + |c|] == c && r[|a| + |b| + |c|..] == d
  {
    var r := a + b + c + d;
    assert r[..|a|] == a;
    assert r[|a|..] == b + c + d;
    assert (b + c + d)[..|b|] == b;
    assert r[|a| + |b|..] == c + d;
    assert (c + d)[..|c|] == c;
  }

  lemma ContainsSuffix<T>(a: seq<T>, b: seq<T>)
    ensures Contains(a + b, b)
  {
    assert (a + b)[|a|..] == b;
  }

  lemma ContainsAfter<T>(a: seq<T>, s: seq<T>, sub: seq<T>)
    requires Contains(s, sub)
    ensures Contains(a + s, sub)
  {
    var k :| 0 <= k <= |s| && sub <= s[k..];
    assert (a + s)[|a| + k..] == s[k..];
  }

  /** Containment is transitive. */
  lemma ContainsTrans<T>(s: seq<T>, mid: seq<T>, sub: seq<T>)
    requires Contains(s, mid) && Contains(mid, sub)
    ensures Contains(s, sub)
  {
    var k :| 0 <= k <= |s| && mid <= s[k..];
    var l :| 0 <= l <= |mid| && sub <= mid[l..];
    assert |sub| <= |mid| - l && |mid| <= |s| - k;
    forall i | 0 <= i < |sub| ensures sub[i] == s[k + l..][i] {
      assert sub[i] == mid[l + i] == s[k..][l + i];
    }
  }

  /** Containment survives putting more text on either side. */
  lemma ContainsWiden<T>(s: seq<T>, sub: seq<T>, a: seq<T>, c: seq<T>)
    requires Contains(s, sub)
    ensures Contains(a + s + c, sub)
  {
    var k :| 0 <= k <= |s| && sub <= s[k..];
    assert (a + s + c)[|a| + k..] == s[k..] + c;
  }

  /** `sep` between consecutive items; nothing for no items (strings.Join). */
  function Join(items: seq<string>, sep: string): (r: string)
    ensures |items| == 1 ==> r == items[0]
  {
    if |items| == 0 then ""
    else if |items| == 1 then items[0]
    else Join(items[..|items| - 1], sep) + sep + items[|items| - 1]
  }

  /** Joining one more item: how a loop that adds the separator only after a first
      non-empty item builds the same text. */
  lemma JoinExtend(items: seq<string>, sep: string, m: nat)
    requires m < |items|
    ensures Join(items[..m + 1], sep) == if m == 0 then items[0] else Join(items[..m], sep) + sep + items[m]
  {
    assert items[..m + 1][..m] == items[..m];
  }

  /** Joining an item in front of a non-empty list. */
  lemma {:induction false} JoinCons(a: string, items: seq<string>, sep: string)
    requires |items| > 0
    ensures Join([a] + items, sep) == a + sep + Join(items, sep)
    decreases |items|
  {
    var n := |items|;
    assert ([a] + items)[..n] == [a] + items[..n - 1];
    if n > 1 {
      JoinCons(a, items[..n - 1], sep);
      assert Join([a] + items, sep) == a + sep + Join(items[..n - 1], sep) + sep + items[n - 1];
    }
  }

  /** Joining non-empty items gives a non-empty text as soon as there is one item. */
  lemma JoinNonEmpty(items: seq<string>, sep: string)
    requires forall k :: 0 <= k < |items| ==> |items[k]| > 0
    ensures |Join(items, sep)| == 0 <==> |items| == 0
  {
  }

  /** Every item of the list appears in the joined text. */
  lemma {:induction false} JoinContainsItems(items: seq<string>, sep: string, k: nat)
    requires k < |items|
    ensures Contains(Join(items, sep), items[k])
    decreases |items|
  {
    var n := |items|;
    if n == 1 {
      ContainsPrefix(items[0], items[0]);
    } else if k == n - 1 {
      ContainsMiddle(Join(items[..n - 1], sep) + sep, items[k], []);
      assert Join(items[..n - 1], sep) + sep + items[k] + [] == Join(items, sep);
    } else {
      JoinContainsItems(items[..n - 1], sep, k);
      assert items[..n - 1][k] == items[k];
      ContainsWiden(Join(items[..n - 1], sep), items[k], [], sep + items[n - 1]);
      assert [] + Join(items[..n - 1], sep) + (sep + items[n - 1]) == Join(items, sep);
    }
  }

  // ---------------------------------------------------------------------------
  // Decimal rendering (fmt's %d)

  function DigitChar(d: nat): (c: char)
    requires d < 10
    ensures '0' <= c <= '9'
  {
    "0123456789"[d]
  }

  function NatToString(n: nat): (s: string)
    ensures |s| > 0
    ensures forall k :: 0 <= k < |s| ==> '0' <= s[k] <= '9'
  {
    if n < 10 then [DigitChar(n)] else NatToString(n / 10) + [DigitChar(n % 10)]
  }

  function IntToString(i: int): (s: string)
    ensures |s| > 0
    ensures (i < 0) <==> s[0] == '-'
  {
    if i < 0 then "-" + NatToString(-i) else NatToString(i)
  }

  // ---------------------------------------------------------------------------
  // strings.TrimSpace: white space is unicode.IsSpace

  predicate IsSpace(c: char) {
    || c == ' ' || c == '\t' || c == '\n' || c == '\r'
    || c as int == 0x0B || c as int == 0x0C || c as int == 0x85 || c as int == 0xA0
    || c as int == 0x1680 || (0x2000 <= c as int <= 0x200A)
    || c as int == 0x2028 || c as int == 0x2029 || c as int == 0x202F
    || c as int == 0x205F || c as int == 0x3000
  }

  predicate AllSpace(s: string) {
    forall k :: 0 <= k < |s| ==> IsSpace(s[k])
  }

  /** Number of white-space characters at the start of `s`. */
  function LeadingSpaces(s: string): (n: nat)
    ensures n <= |s|
    ensures forall k :: 0 <= k < n ==> IsSpace(s[k])
    ensures n < |s| ==> !IsSpace(s[n])
  {
    if |s| > 0 && IsSpace(s[0]) then 1 + LeadingSpaces(s[1..]) else 0
  }

  /** Number of white-space characters at the end of `s`. */
  function TrailingSpaces(s: string): (n: nat)
    ensures n <= |s|
    ensures forall k :: |s| - n <= k < |s| ==> IsSpace(s[k])
    ensures n < |s| ==> !IsSpace(s[|s| - n - 1])
  {
    if |s| > 0 && IsSpace(s[|s| - 1]) then 1 + TrailingSpaces(s[..|s| - 1]) else 0
  }

  /** strings.TrimSpace: the input with the white space at both ends removed; the
      result has no white space at either end, and it is empty exactly when the
      whole input is white space. */
  function TrimSpace(s: string): (r: string)
    ensures |r| <= |s|
    ensures var k := LeadingSpaces(s);
            k + |r| <= |s| && s[k..k + |r|] == r && AllSpace(s[..k]) && AllSpace(s[k + |r|..])
    ensures |r| > 0 ==> !IsSpace(r[0]) && !IsSpace(r[|r| - 1])
    ensures r == "" <==> AllSpace(s)
  {
    var a := LeadingSpaces(s);
    if a == |s| then ""
    else
      var b := TrailingSpaces(s);
      assert !IsSpace(s[a]);
      assert a < |s| - b;
      var r := s[a..|s| - b];
      assert r[0] == s[a] && r[|r| - 1] == s[|s| - b - 1];
      assert AllSpace(s[..a]) by {
        forall k | 0 <= k < a ensures IsSpace(s[..a][k]) {
          assert s[..a][k] == s[k];
        }
      }
      assert AllSpace(s[|s| - b..]) by {
        var back := s[|s| - b..];
        forall k | 0 <= k < |back| ensures IsSpace(back[k]) {
          assert back[k] == s[|s| - b + k];
        }
      }
      assert !AllSpace(s) by {
        assert !IsSpace(s[a]);
      }
      r
  }

  // ---------------------------------------------------------------------------
  // strings.IndexRune and `%5s`

  /** Index of the first `c` in `s`, or -1 when there is none. */
  function IndexOf(s: string, c: char): (r: int)
    ensures -1 <= r < |s|
    ensures r >= 0 ==> s[r] == c && c !in s[..r]
    ensures r == -1 <==> c !in s
  {
    if |s| == 0 then -1
    else if s[0] == c then 0
    else
      var r := IndexOf(s[1..], c);
      if r < 0 then -1
      else
        assert s[..r + 1] == [s[0]] + s[1..][..r];
        r + 1
  }

  /** fmt's `%<width>s`: spaces on the left up to `width` characters. */
  function PadLeft(s: string, width: nat): (r: string)
    ensures |r| == if |s| >= width then |s| else width
    ensures s <= r[|r| - |s|..] && r[|r| - |s|..] == s
    ensures forall k :: 0 <= k < |r| - |s| ==> r[k] == ' '
  {
    if |s| >= width then s else seq(width - |s|, _ => ' ') + s
  }
}
