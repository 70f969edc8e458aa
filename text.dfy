/**
 * The Python string built-ins the auditor relies on: `str.strip()` with no
 * argument, substring search (`in`, `str.split(sep, 1)`), `str.splitlines()`
 * restricted to '\n' line ends, and `str(int)` for a count.
 */
module Text {
  import opened Wrappers

  /** Python's `str.isspace` for one character: exactly what `str.strip()` removes. */
  predicate IsSpace(c: char)
  {
    ('\t' <= c <= '\r') || ('\U{001C}' <= c <= ' ') || c == '\U{0085}' || c == '\U{00A0}'
    || c == '\U{1680}' || ('\U{2000}' <= c <= '\U{200A}') || c == '\U{2028}' || c == '\U{2029}'
    || c == '\U{202F}' || c == '\U{205F}' || c == '\U{3000}'
  }

  predicate AllSpace(s: string)
  {
    forall k :: 0 <= k < |s| ==> IsSpace(s[k])
  }

  /** `s.lstrip()`: the suffix of `s` left after its leading whitespace. */
  function TrimLeft(s: string): string
  {
    if s != [] && IsSpace(s[0]) then TrimLeft(s[1..]) else s
  }

  /** `lstrip` keeps a suffix, drops only whitespace, and leaves no whitespace in front. */
  lemma {:induction false} TrimLeftSpec(s: string)
    ensures var r := TrimLeft(s);
      |r| <= |s| && r == s[|s| - |r|..] && AllSpace(s[..|s| - |r|]) && (r == [] || !IsSpace(r[0]))
  {
    if s != [] && IsSpace(s[0]) {
      TrimLeftSpec(s[1..]);
      var r := TrimLeft(s[1..]);
      assert s[..|s| - |r|] == [s[0]] + s[1..][..|s| - 1 - |r|];
      assert s[1..][|s| - 1 - |r|..] == s[|s| - |r|..];
    }
  }

  /** `s.rstrip()`: the prefix of `s` left before its trailing whitespace. */
  function TrimRight(s: string): string
  {
    if s != [] && IsSpace(s[|s| - 1]) then TrimRight(s[..|s| - 1]) else s
  }

  /** `rstrip` keeps a prefix, drops only whitespace, and leaves no whitespace behind. */
  lemma {:induction false} TrimRightSpec(s: string)
    ensures var r := TrimRight(s);
      |r| <= |s| && r == s[..|r|] && AllSpace(s[|r|..]) && (r == [] || !IsSpace(r[|r| - 1]))
  {
    if s != [] && IsSpace(s[|s| - 1]) {
      var t := s[..|s| - 1];
      TrimRightSpec(t);
      var r := TrimRight(t);
      assert s[|r|..] == t[|r|..] + [s[|s| - 1]];
      assert t[..|r|] == s[..|r|];
    }
  }

  /** `s.strip()`: `s` with its leading and trailing whitespace removed. */
  function Strip(s: string): string
  {
    TrimRight(TrimLeft(s))
  }

  /**
   * `strip` removes only whitespace, and only from the two ends: what is left
   * is a piece of `s` that neither starts nor ends with whitespace.
   */
  lemma StripPiece(s: string) returns (i: nat)
    ensures i + |Strip(s)| <= |s| && s[i..i + |Strip(s)|] == Strip(s)
    ensures AllSpace(s[..i]) && AllSpace(s[i + |Strip(s)|..])
    ensures Strip(s) == [] || (!IsSpace(Strip(s)[0]) && !IsSpace(Strip(s)[|Strip(s)| - 1]))
  {
    var left := TrimLeft(s);
    var r := TrimRight(left);
    TrimLeftSpec(s);
    TrimRightSpec(left);
    i := |s| - |left|;
    assert s[i..i + |r|] == r;
    assert s[i + |r|..] == left[|r|..];
    if r != [] {
      assert r[0] == left[0];
    }
  }

  lemma {:induction false} TrimLeftSkips(a: string, m: string)
    requires AllSpace(a) && (m == [] || !IsSpace(m[0]))
    ensures TrimLeft(a + m) == m
  {
    if a == [] {
      assert a + m == m;
    } else {
      assert (a + m)[1..] == a[1..] + m;
      TrimLeftSkips(a[1..], m);
    }
  }

  lemma {:induction false} TrimRightSkips(m: string, b: string)
    requires AllSpace(b) && (m == [] || !IsSpace(m[|m| - 1]))
    ensures TrimRight(m + b) == m
  {
    if b == [] {
      assert m + b == m;
    } else {
      assert (m + b)[..|m + b| - 1] == m + b[..|b| - 1];
      TrimRightSkips(m, b[..|b| - 1]);
    }
  }

  /** Whitespace around a word that neither starts nor ends with whitespace is exactly what `strip` removes. */
  lemma StripUnique(a: string, m: string, b: string)
    requires AllSpace(a) && AllSpace(b)
    requires m == [] || (!IsSpace(m[0]) && !IsSpace(m[|m| - 1]))
    ensures Strip(a + m + b) == m
  {
    if m == [] {
      assert a + m + b == a + b + m;
      TrimLeftSkips(a + b, m);
    } else {
      assert a + m + b == a + (m + b);
      TrimLeftSkips(a, m + b);
      TrimRightSkips(m, b);
    }
  }

  /** `strip` is idempotent. */
  lemma StripIdempotent(s: string)
    ensures Strip(Strip(s)) == Strip(s)
  {
    var r := Strip(s);
    var _ := StripPiece(s);
    assert r == [] + r + [];
    StripUnique([], r, []);
  }

  /** `sub` occurs in `s` starting at index `k`. */
  predicate OccursAt(s: string, sub: string, k: nat)
  {
    k + |sub| <= |s| && s[k..k + |sub|] == sub
  }

  /** `s.find(sub, from)` as an option: the first index at or after `from` where `sub` occurs. */
  function IndexFrom(s: string, sub: string, from: nat): Option<nat>
    decreases |s| - from
  {
    if from + |sub| > |s| then None
    else if s[from..from + |sub|] == sub then Some(from)
    else IndexFrom(s, sub, from + 1)
  }

  /** `IndexFrom` finds the first occurrence at or after `from`, and finds nothing only when there is none. */
  lemma {:induction false} IndexFromSpec(s: string, sub: string, from: nat)
    ensures var r := IndexFrom(s, sub, from);
      (r.Some? ==> from <= r.value && OccursAt(s, sub, r.value))
      && (r.Some? ==> forall j :: from <= j < r.value ==> !OccursAt(s, sub, j))
      && (r.None? ==> forall j :: from <= j ==> !OccursAt(s, sub, j))
    decreases |s| - from
  {
    if from + |sub| <= |s| && s[from..from + |sub|] != sub {
      IndexFromSpec(s, sub, from + 1);
    }
  }

  /** `s.find(sub)` as an option. */
  function IndexOf(s: string, sub: string): Option<nat>
  {
    IndexFrom(s, sub, 0)
  }

  /** The first occurrence is unique: an occurrence with none before it is what `IndexOf` finds. */
  lemma IndexOfFirst(s: string, sub: string, k: nat)
    requires OccursAt(s, sub, k)
    requires forall j :: 0 <= j < k ==> !OccursAt(s, sub, j)
    ensures IndexOf(s, sub) == Some(k)
  {
    IndexFromSpec(s, sub, 0);
  }

  /** Python's `sub in s`: `sub` occurs somewhere in `s`. */
  predicate Contains(s: string, sub: string)
  {
    exists j :: 0 <= j <= |s| - |sub| && OccursAt(s, sub, j)
  }

  /** `s.split(sep, 1)[1]`: what follows the first `sep`; None where the split yields one piece and index 1 is missing. */
  function AfterFirst(s: string, sep: string): Option<string>
  {
    IndexFromSpec(s, sep, 0);
    match IndexOf(s, sep)
    case None => None
    case Some(k) => Some(s[k + |sep|..])
  }

  /**
   * The split has a second piece exactly when `sep` occurs, and that piece is
   * the whole rest of `s` after the first occurrence of `sep`.
   */
  lemma AfterFirstSpec(s: string, sep: string)
    ensures var r := AfterFirst(s, sep);
      (r.Some? <==> exists j :: OccursAt(s, sep, j))
      && (r.Some? ==> |sep| + |r.value| <= |s| && r.value == s[|s| - |r.value|..])
      && (r.Some? ==> OccursAt(s, sep, |s| - |r.value| - |sep|))
      && (r.Some? ==> forall j :: 0 <= j < |s| - |r.value| - |sep| ==> !OccursAt(s, sep, j))
  {
    IndexFromSpec(s, sep, 0);
  }

  /** A one-character needle occurs exactly where that character is. */
  lemma OccursAtChar(s: string, c: char, j: nat)
    ensures OccursAt(s, [c], j) <==> j < |s| && s[j] == c
  {
    if j < |s| && s[j] == c {
      assert s[j..j + 1] == [c];
    }
  }

  lemma NoCharBefore(s: string, c: char, k: nat)
    requires k <= |s|
    requires forall j :: 0 <= j < k ==> !OccursAt(s, [c], j)
    ensures c !in s[..k]
  {
    forall j | 0 <= j < k
      ensures s[j] != c
    {
      OccursAtChar(s, c, j);
    }
  }

  /** `s.splitlines()` with '\n' as the only line end: a final '\n' closes the last line and opens no new one. */
  function SplitLines(s: string): (lines: seq<string>)
    ensures forall k :: 0 <= k < |lines| ==> '\n' !in lines[k]
    decreases |s|
  {
    if s == [] then []
    else
      IndexFromSpec(s, "\n", 0);
      match IndexOf(s, "\n")
      case None =>
        NoCharBefore(s, '\n', |s|);
        [s]
      case Some(k) =>
        NoCharBefore(s, '\n', k);
        [s[..k]] + SplitLines(s[k + 1..])
  }

  /** The text of a file whose lines are `lines`, each ended by '\n'. */
  function JoinLines(lines: seq<string>): string
  {
    if lines == [] then [] else lines[0] + "\n" + JoinLines(lines[1..])
  }

  /** Splitting undoes joining, so a final '\n' yields no extra empty line. */
  lemma {:induction false} SplitJoin(lines: seq<string>)
    requires forall k :: 0 <= k < |lines| ==> '\n' !in lines[k]
    ensures SplitLines(JoinLines(lines)) == lines
  {
    if lines != [] {
      var l := lines[0];
      var s := JoinLines(lines);
      var rest := JoinLines(lines[1..]);
      assert s == l + "\n" + rest;
      OccursAtChar(s, '\n', |l|);
      forall j | 0 <= j < |l|
        ensures !OccursAt(s, "\n", j)
      {
        OccursAtChar(s, '\n', j);
        assert s[j] == l[j];
      }
      IndexOfFirst(s, "\n", |l|);
      assert s[..|l|] == l && s[|l| + 1..] == rest;
      SplitJoin(lines[1..]);
      assert SplitLines(s) == [l] + SplitLines(rest);
    }
  }

  /** One step of `splitlines`: the text up to the first '\n' is a line, and the rest is split in turn. */
  lemma SplitLinesStep(s: string)
    requires s != []
    ensures IndexOf(s, "\n").None? ==> SplitLines(s) == [s] && '\n' !in s
    ensures IndexOf(s, "\n").Some? ==>
      var k := IndexOf(s, "\n").value;
      k < |s| && s[k] == '\n' && SplitLines(s) == [s[..k]] + SplitLines(s[k + 1..])
  {
    IndexFromSpec(s, "\n", 0);
    match IndexOf(s, "\n")
    case None =>
      NoCharBefore(s, '\n', |s|);
      assert s[..|s|] == s;
    case Some(k) =>
      OccursAtChar(s, '\n', k);
  }

  /** A file closed by '\n', or left open, as `JoinLines` renders it. */
  function Closed(s: string): string
  {
    if s == [] || s[|s| - 1] == '\n' then s else s + "\n"
  }

  lemma ClosedCons(head: string, t: string)
    ensures head + "\n" + Closed(t) == Closed(head + "\n" + t)
  {
    var s := head + "\n" + t;
    if t != [] {
      assert s[|s| - 1] == t[|t| - 1];
      if t[|t| - 1] != '\n' {
        assert head + "\n" + (t + "\n") == s + "\n";
      }
    }
  }

  /** Joining undoes splitting, up to the final '\n' that an unterminated last line lacks. */
  lemma {:induction false} JoinSplit(s: string)
    ensures JoinLines(SplitLines(s)) == Closed(s)
    decreases |s|
  {
    if s != [] {
      SplitLinesStep(s);
      match IndexOf(s, "\n")
      case None =>
        assert s[|s| - 1] in s;
        assert JoinLines([s]) == s + "\n" + [];
      case Some(k) =>
        var t := s[k + 1..];
        var lines := [s[..k]] + SplitLines(t);
        assert lines[0] == s[..k] && lines[1..] == SplitLines(t);
        JoinSplit(t);
        ClosedCons(s[..k], t);
        assert s == s[..k] + "\n" + t;
    }
  }

  function DigitChar(d: nat): (c: char)
    requires d < 10
    ensures '0' <= c <= '9'
  {
    ('0' as int + d) as char
  }

  function DigitValue(c: char): nat
    requires '0' <= c <= '9'
  {
    c as int - '0' as int
  }

  predicate AllDigits(s: string)
  {
    forall k :: 0 <= k < |s| ==> '0' <= s[k] <= '9'
  }

  /** `str(n)` for a non-negative integer: its decimal digits, no leading zero. */
  function Decimal(n: nat): (s: string)
    ensures |s| >= 1 && AllDigits(s)
    ensures s[0] == '0' ==> n == 0
  {
    if n < 10 then [DigitChar(n)] else Decimal(n / 10) + [DigitChar(n % 10)]
  }

  /** The number a string of decimal digits denotes. */
  function DecimalValue(s: string): nat
    requires AllDigits(s)
  {
    if s == [] then 0 else DecimalValue(s[..|s| - 1]) * 10 + DigitValue(s[|s| - 1])
  }

  /** Reading back the decimal rendering of `n` gives `n`. */
  lemma {:induction false} DecimalRoundTrip(n: nat)
    ensures DecimalValue(Decimal(n)) == n
  {
    if n >= 10 {
      DecimalRoundTrip(n / 10);
      var s := Decimal(n);
      assert s[..|s| - 1] == Decimal(n / 10);
    }
  }
}
