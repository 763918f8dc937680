/** Character classes and the string operations of Python's `str` that the
    search page relies on, restricted to ASCII. */
module Text {
  import opened Wrappers

  /** Python truthiness of an optional string: present and non-empty. */
  predicate Truthy(s: Option<string>) {
    s.Some? && |s.value| > 0
  }

  /** `c.isdigit()` for ASCII: the characters '0'..'9'. */
  predicate IsDigit(c: char) {
    '0' <= c <= '9'
  }

  /** The ASCII characters for which `str.isspace()` holds, hence the ones
      `str.strip()` with no argument removes. */
  predicate IsSpace(c: char) {
    c == ' ' || c == '\t' || c == '\n' || c == '\r'
    || c == '\U{B}' || c == '\U{C}' || ('\U{1C}' <= c <= '\U{1F}')
  }

  predicate IsUpper(c: char) {
    'A' <= c <= 'Z'
  }

  /** `str.lower()` on one ASCII character. */
  function Lower(c: char): (d: char)
    ensures !IsUpper(d)
    ensures IsUpper(c) ==> d as int == c as int + 32
    ensures !IsUpper(c) ==> d == c
  {
    if IsUpper(c) then (c as int + 32) as char else c
  }

  /** What `str.strip` removes: white space when called with no argument,
      otherwise the characters of the given string. */
  datatype Trim = Whitespace | Chars(chars: string)

  predicate Cut(t: Trim, c: char) {
    match t
    case Whitespace => IsSpace(c)
    case Chars(cs) => c in cs
  }

  /** How many characters of `s`, from position `i` on, are removed by `t`
      before the first one that is not (`LeadingFromCut` says that all of
      them are). */
  function LeadingFrom(s: string, t: Trim, i: nat): (n: nat)
    requires i <= |s|
    ensures i + n <= |s|
    ensures i + n < |s| ==> !Cut(t, s[i + n])
    decreases |s| - i
  {
    if i < |s| && Cut(t, s[i]) then 1 + LeadingFrom(s, t, i + 1) else 0
  }

  lemma {:induction false} LeadingFromCut(s: string, t: Trim, i: nat)
    requires i <= |s|
    ensures forall k :: i <= k < i + LeadingFrom(s, t, i) ==> Cut(t, s[k])
    decreases |s| - i
  {
    if i < |s| && Cut(t, s[i]) {
      LeadingFromCut(s, t, i + 1);
    }
  }

  /** How many characters of `s` before position `j` are removed by `t`,
      going backwards until the first one that is not (`TrailingToCut` says
      that all of them are). */
  function TrailingTo(s: string, t: Trim, j: nat): (n: nat)
    requires j <= |s|
    ensures n <= j
    ensures n < j ==> !Cut(t, s[j - 1 - n])
  {
    if j > 0 && Cut(t, s[j - 1]) then 1 + TrailingTo(s, t, j - 1) else 0
  }

  lemma {:induction false} TrailingToCut(s: string, t: Trim, j: nat)
    requires j <= |s|
    ensures forall k :: j - TrailingTo(s, t, j) <= k < j ==> Cut(t, s[k])
  {
    if j > 0 && Cut(t, s[j - 1]) {
      TrailingToCut(s, t, j - 1);
    }
  }

  /** How many leading characters of `s` are removed by `t`. */
  function LeadingCount(s: string, t: Trim): (n: nat)
    ensures n <= |s|
    ensures n < |s| ==> !Cut(t, s[n])
  {
    LeadingFrom(s, t, 0)
  }

  /** How many trailing characters of `s` are removed by `t`. */
  function TrailingCount(s: string, t: Trim): (n: nat)
    ensures n <= |s|
    ensures n < |s| ==> !Cut(t, s[|s| - 1 - n])
  {
    TrailingTo(s, t, |s|)
  }

  /** The `n` characters of `s` from position `i` on (the slice `s[i:i+n]`). */
  function Kept(s: string, i: nat, n: nat): (r: string)
    requires i + n <= |s|
    ensures |r| == n
    decreases n
  {
    if n == 0 then [] else [s[i]] + Kept(s, i + 1, n - 1)
  }

  lemma {:induction false} KeptReads(s: string, i: nat, n: nat)
    requires i + n <= |s|
    ensures forall k :: 0 <= k < n ==> Kept(s, i, n)[k] == s[i + k]
    decreases n
  {
    if n > 0 {
      KeptReads(s, i + 1, n - 1);
      assert forall k :: 1 <= k < n ==> Kept(s, i, n)[k] == Kept(s, i + 1, n - 1)[k - 1];
    }
  }

  /** `str.strip`: removes the characters of `t` from both ends. What is
      kept is `s` read from just after the removed leading characters, and
      it neither starts nor ends with a removed character (`StripRemoves`
      says that only such characters were removed). */
  function Strip(s: string, t: Trim): (r: string)
    ensures LeadingCount(s, t) + |r| <= |s|
    ensures forall k :: 0 <= k < |r| ==> r[k] == s[LeadingCount(s, t) + k]
    ensures |r| > 0 ==> !Cut(t, r[0]) && !Cut(t, r[|r| - 1])
  {
    var i := LeadingCount(s, t);
    TrailingToCut(s, t, |s|);
    var n := if i == |s| then 0 else |s| - TrailingCount(s, t) - i;
    KeptReads(s, i, n);
    Kept(s, i, n)
  }

  /** Everything `strip` drops, before and after what it keeps, is a
      character of `t`. */
  lemma StripRemoves(s: string, t: Trim)
    ensures forall k :: 0 <= k < LeadingCount(s, t) ==> Cut(t, s[k])
    ensures forall k :: LeadingCount(s, t) + |Strip(s, t)| <= k < |s| ==> Cut(t, s[k])
  {
    LeadingFromCut(s, t, 0);
    TrailingToCut(s, t, |s|);
  }

  /** Text that neither starts nor ends with a character of `t` is left as
      it is. */
  lemma StripUntouched(s: string, t: Trim)
    requires |s| > 0 ==> !Cut(t, s[0]) && !Cut(t, s[|s| - 1])
    ensures Strip(s, t) == s
  {
    assert LeadingFrom(s, t, 0) == 0;
    assert TrailingTo(s, t, |s|) == 0;
    assert |Strip(s, t)| == |s|;
  }

  /** Reading `b` inside `a` inside `s` is reading `b` inside `s`. */
  lemma ComposeReads(s: string, a: string, b: string, i: nat, j: nat)
    requires i + |a| <= |s| && forall k :: 0 <= k < |a| ==> a[k] == s[i + k]
    requires j + |b| <= |a| && forall k :: 0 <= k < |b| ==> b[k] == a[j + k]
    ensures i + j + |b| <= |s| && forall k :: 0 <= k < |b| ==> b[k] == s[i + j + k]
  {
  }

  /** The digit characters of `s`, in order (what `"".join(re.findall(r"\d+", s))`
      yields, for ASCII text). */
  function Digits(s: string): (d: string)
    ensures |d| <= |s|
    ensures forall k :: 0 <= k < |d| ==> IsDigit(d[k])
  {
    if |s| == 0 then []
    else Digits(s[..|s| - 1]) + (if IsDigit(s[|s| - 1]) then [s[|s| - 1]] else [])
  }

  /** Taking digits distributes over concatenation. */
  lemma {:induction false} DigitsAppend(a: string, b: string)
    ensures Digits(a + b) == Digits(a) + Digits(b)
    decreases |b|
  {
    if |b| == 0 {
      assert a + b == a;
    } else {
      var b' := b[..|b| - 1];
      assert (a + b)[..|a + b| - 1] == a + b';
      DigitsAppend(a, b');
    }
  }

  /** A string made of digits only is its own digit sequence. */
  lemma {:induction false} DigitsOfDigitString(s: string)
    requires forall k :: 0 <= k < |s| ==> IsDigit(s[k])
    ensures Digits(s) == s
    decreases |s|
  {
    if |s| > 0 {
      DigitsOfDigitString(s[..|s| - 1]);
      assert s == s[..|s| - 1] + [s[|s| - 1]];
    }
  }

  /** A string with no digit character has no digits. */
  lemma {:induction false} DigitsOfNonDigits(s: string)
    requires forall k :: 0 <= k < |s| ==> !IsDigit(s[k])
    ensures Digits(s) == []
    decreases |s|
  {
    if |s| > 0 {
      DigitsOfNonDigits(s[..|s| - 1]);
    }
  }

  /** Digits(s) is empty exactly when `s` contains no digit character. */
  lemma {:induction false} DigitsEmptyIff(s: string)
    ensures Digits(s) == [] <==> forall k :: 0 <= k < |s| ==> !IsDigit(s[k])
    decreases |s|
  {
    if |s| > 0 {
      var init := s[..|s| - 1];
      DigitsEmptyIff(init);
      assert forall k :: 0 <= k < |init| ==> init[k] == s[k];
    }
  }

  /** `s.replace(c, "")`: `s` with every occurrence of `c` removed. */
  function RemoveAll(s: string, c: char): (r: string)
    ensures |r| <= |s|
    ensures forall k :: 0 <= k < |r| ==> r[k] != c
  {
    if |s| == 0 then []
    else RemoveAll(s[..|s| - 1], c) + (if s[|s| - 1] == c then [] else [s[|s| - 1]])
  }

  /** Removing a non-digit character leaves the digits untouched. */
  lemma {:induction false} DigitsRemoveAll(s: string, c: char)
    requires !IsDigit(c)
    ensures Digits(RemoveAll(s, c)) == Digits(s)
    decreases |s|
  {
    if |s| > 0 {
      var init := s[..|s| - 1];
      DigitsRemoveAll(init, c);
      var last := if s[|s| - 1] == c then [] else [s[|s| - 1]];
      DigitsAppend(RemoveAll(init, c), last);
    }
  }

  /** `s.replace(from, to)` for single characters. */
  function Replace(s: string, from: char, to: char): (r: string)
    ensures |r| == |s|
    ensures forall k :: 0 <= k < |s| ==> r[k] == (if s[k] == from then to else s[k])
  {
    if |s| == 0 then [] else [if s[0] == from then to else s[0]] + Replace(s[1..], from, to)
  }

  /** `s.lower()`. */
  function LowerString(s: string): (r: string)
    ensures |r| == |s|
    ensures forall k :: 0 <= k < |s| ==> r[k] == Lower(s[k])
  {
    if |s| == 0 then [] else [Lower(s[0])] + LowerString(s[1..])
  }
}
