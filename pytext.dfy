/** The few Python string operations the scripts rely on, over `seq<char>`:
    `str.split(c)[-1]`, `str.split(c)[0]`, `str.isdigit`, `int`, `str(n)`,
    `str.strip` and `str.replace`. Digits are '0'..'9' and whitespace is the
    ASCII characters for which `str.isspace()` holds. */
module PyText {
  import opened Wrappers

  predicate IsDigit(c: char) { '0' <= c <= '9' }

  predicate AllDigits(s: string) { forall i :: 0 <= i < |s| ==> IsDigit(s[i]) }

  /** `s.isdigit()`: non-empty and made of digits only. */
  predicate IsDigits(s: string) { |s| > 0 && AllDigits(s) }

  function DigitValue(c: char): nat
    requires IsDigit(c)
  {
    c as int - '0' as int
  }

  function DigitChar(d: nat): (c: char)
    requires d < 10
    ensures IsDigit(c) && DigitValue(c) == d
  {
    ('0' as int + d) as char
  }

  /** The value of a decimal numeral (leading zeros allowed, as `int` allows them). */
  function DigitsValue(s: string): nat
    requires AllDigits(s)
  {
    if s == [] then 0 else DigitsValue(s[..|s| - 1]) * 10 + DigitValue(s[|s| - 1])
  }

  /** `str(n)` for a natural number: its decimal numeral without leading zeros. */
  function NatToString(n: nat): (s: string)
    ensures IsDigits(s) && DigitsValue(s) == n
    ensures n < 10 <==> |s| == 1
    ensures n > 0 ==> s[0] != '0'
  {
    if n < 10 then [DigitChar(n)]
    else
      var init := NatToString(n / 10);
      var s := init + [DigitChar(n % 10)];
      assert s[..|s| - 1] == init;
      s
  }

  /** `int(s)` on text that has already been stripped: an optional sign and
      at least one digit; anything else raises ValueError, here None. */
  function ParseInt(s: string): (r: Option<int>)
    ensures r.Some? ==> IsDigits(s) || (|s| > 0 && (s[0] == '+' || s[0] == '-') && IsDigits(s[1..]))
    ensures IsDigits(s) ==> r == Some(DigitsValue(s))
    ensures |s| > 0 && s[0] == '+' && IsDigits(s[1..]) ==> r == Some(DigitsValue(s[1..]))
    ensures |s| > 0 && s[0] == '-' && IsDigits(s[1..]) ==> r == Some(-(DigitsValue(s[1..]) as int))
  {
    if |s| > 0 && (s[0] == '+' || s[0] == '-') then
      if IsDigits(s[1..]) then
        var v: int := DigitsValue(s[1..]);
        Some(if s[0] == '-' then -v else v)
      else None
    else if IsDigits(s) then Some(DigitsValue(s))
    else None
  }

  /** A decimal integer literal of value `v`: digits, optionally after a sign. */
  predicate Numeral(t: string, v: int)
  {
    || (IsDigits(t) && v == DigitsValue(t))
    || (|t| > 0 && t[0] == '+' && IsDigits(t[1..]) && v == DigitsValue(t[1..]))
    || (|t| > 0 && t[0] == '-' && IsDigits(t[1..]) && v == -(DigitsValue(t[1..]) as int))
  }

  /** `int(t)` succeeds with `v` exactly on the literals of `v`. */
  lemma ParseIntNumeral(t: string, v: int)
    ensures ParseInt(t) == Some(v) <==> Numeral(t, v)
  {
  }

  /** `s.split(c)[-1]`: the text after the last `c`, or all of `s` when it
      has no `c`. */
  function AfterLast(s: string, c: char): (r: string)
    ensures |r| <= |s| && r == s[|s| - |r|..]
    ensures c !in r
    ensures |r| == |s| || s[|s| - |r| - 1] == c
  {
    if s == [] then []
    else if s[|s| - 1] == c then []
    else AfterLast(s[..|s| - 1], c) + [s[|s| - 1]]
  }

  /** `s.split(c)[0]`: the text before the first `c`, or all of `s` when it
      has no `c`. */
  function BeforeFirst(s: string, c: char): (r: string)
    ensures |r| <= |s| && r == s[..|r|]
    ensures c !in r
    ensures |r| == |s| || s[|r|] == c
  {
    if s == [] then []
    else if s[0] == c then []
    else [s[0]] + BeforeFirst(s[1..], c)
  }

  lemma AfterLastJoin(a: string, c: char, b: string)
    requires c !in b
    ensures AfterLast(a + [c] + b, c) == b
  {
    var s := a + [c] + b;
    assert s[|a|] == c;
    assert s[|s| - |b|..] == b;
    assert forall k :: |a| < k < |s| ==> s[k] == b[k - |a| - 1];
  }

  lemma BeforeFirstJoin(a: string, c: char, b: string)
    requires c !in a
    ensures BeforeFirst(a + [c] + b, c) == a
  {
    var s := a + [c] + b;
    assert s[|a|] == c;
    assert s[..|a|] == a;
  }

  /** The ASCII characters `str.strip()` removes: those for which
      `str.isspace()` holds, tab to carriage return, the four separators
      0x1C..0x1F and the space. */
  predicate IsSpace(c: char)
  {
    c == ' ' || ('\t' <= c <= '\r') || ('\U{1C}' <= c <= '\U{1F}')
  }

  /** The number of whitespace characters `s` starts with. */
  function LeadingSpaces(s: string): (n: nat)
    ensures n <= |s|
    ensures forall k :: 0 <= k < n ==> IsSpace(s[k])
    ensures n == |s| || !IsSpace(s[n])
  {
    if s != [] && IsSpace(s[0]) then 1 + LeadingSpaces(s[1..]) else 0
  }

  /** Where the visible part of `s[lo..hi]` ends: only whitespace follows it
      up to `hi`, and it is empty or ends with a visible character. */
  function VisibleEnd(s: string, lo: nat, hi: nat): (j: nat)
    requires lo <= hi <= |s|
    ensures lo <= j <= hi
    ensures forall k :: j <= k < hi ==> IsSpace(s[k])
    ensures j == lo || !IsSpace(s[j - 1])
    decreases hi
  {
    if hi > lo && IsSpace(s[hi - 1]) then VisibleEnd(s, lo, hi - 1) else hi
  }

  /** `s.strip()`: the slice of `s` left once its leading and trailing
      whitespace is cut off; empty exactly when `s` is all whitespace. */
  function Strip(s: string): (r: string)
    ensures |r| <= |s|
    ensures exists i, j :: (0 <= i <= j <= |s| && r == s[i..j]
      && (forall k :: 0 <= k < i ==> IsSpace(s[k]))
      && (forall k :: j <= k < |s| ==> IsSpace(s[k])))
    ensures r == [] <==> forall i :: 0 <= i < |s| ==> IsSpace(s[i])
    ensures r != [] ==> !IsSpace(r[0]) && !IsSpace(r[|r| - 1])
  {
    var i := LeadingSpaces(s);
    var j := VisibleEnd(s, i, |s|);
    var r := s[i..j];
    assert r != [] ==> r[0] == s[i] && r[|r| - 1] == s[j - 1];
    r
  }

  /** Cutting whitespace from both ends of `s` leaves `s[i..j]` whenever
      only whitespace lies outside it and it starts and ends with a visible
      character. */
  lemma StripUnique(s: string, i: int, j: int)
    requires 0 <= i < j <= |s|
    requires forall k :: 0 <= k < i ==> IsSpace(s[k])
    requires forall k :: j <= k < |s| ==> IsSpace(s[k])
    requires !IsSpace(s[i]) && !IsSpace(s[j - 1])
    ensures Strip(s) == s[i..j]
  {
    var n := LeadingSpaces(s);
    assert n == i;
    var e := VisibleEnd(s, n, |s|);
    assert e == j;
  }

  /** `s` holds an integer literal of value `v` with only whitespace around it. */
  predicate IntCell(s: string, v: int)
  {
    exists i, j :: 0 <= i <= j <= |s|
      && (forall k :: 0 <= k < i ==> IsSpace(s[k]))
      && (forall k :: j <= k < |s| ==> IsSpace(s[k]))
      && Numeral(s[i..j], v)
  }

  /** `int(s.strip())` gives `v` exactly when `s` is a literal of `v` padded
      with whitespace. */
  lemma StrippedInt(s: string, v: int)
    ensures ParseInt(Strip(s)) == Some(v) <==> IntCell(s, v)
  {
    StrippedIntSound(s, v);
    if IntCell(s, v) {
      StrippedIntComplete(s, v);
    }
  }

  lemma StrippedIntSound(s: string, v: int)
    ensures ParseInt(Strip(s)) == Some(v) ==> IntCell(s, v)
  {
    var i := LeadingSpaces(s);
    var j := VisibleEnd(s, i, |s|);
    assert Strip(s) == s[i..j];
    ParseIntNumeral(s[i..j], v);
  }

  lemma StrippedIntComplete(s: string, v: int)
    requires IntCell(s, v)
    ensures ParseInt(Strip(s)) == Some(v)
  {
    var a, b :| 0 <= a <= b <= |s|
      && (forall k :: 0 <= k < a ==> IsSpace(s[k]))
      && (forall k :: b <= k < |s| ==> IsSpace(s[k]))
      && Numeral(s[a..b], v);
    NumeralEnds(s[a..b], v);
    assert s[a..b][0] == s[a] && s[a..b][b - a - 1] == s[b - 1];
    StripUnique(s, a, b);
    ParseIntNumeral(s[a..b], v);
  }

  /** A literal is non-empty and starts and ends with a visible character. */
  lemma NumeralEnds(t: string, v: int)
    requires Numeral(t, v)
    ensures t != [] && !IsSpace(t[0]) && !IsSpace(t[|t| - 1])
  {
    if !IsDigits(t) {
      assert t[1..][|t| - 2] == t[|t| - 1];
    }
  }

  /** The first character of `s` that is not whitespace is `ch`. */
  predicate FirstVisible(s: string, ch: char)
  {
    exists i :: 0 <= i < |s| && s[i] == ch && !IsSpace(ch)
      && forall k :: 0 <= k < i ==> IsSpace(s[k])
  }

  /** `s.strip()[0]` is the first character of `s` that is not whitespace. */
  lemma StrippedHead(s: string, ch: char)
    ensures (Strip(s) != [] && Strip(s)[0] == ch) <==> FirstVisible(s, ch)
  {
    var i := LeadingSpaces(s);
    var j := VisibleEnd(s, i, |s|);
    assert Strip(s) == s[i..j];
    if Strip(s) != [] {
      assert Strip(s)[0] == s[i];
    }
    if FirstVisible(s, ch) {
      var a :| 0 <= a < |s| && s[a] == ch && !IsSpace(ch)
        && forall k :: 0 <= k < a ==> IsSpace(s[k]);
      assert a == i;
    }
  }

  /** `pat` occurs in `s` starting at index `i`. */
  predicate OccursAt(s: string, pat: string, i: int)
  {
    0 <= i && i + |pat| <= |s| && s[i..i + |pat|] == pat
  }

  predicate Occurs(s: string, pat: string)
  {
    exists i :: 0 <= i <= |s| && OccursAt(s, pat, i)
  }

  predicate IsPrefix(w: string, s: string)
  {
    |w| <= |s| && s[..|w|] == w
  }

  /** `s.replace(pat, rep)`: every occurrence of `pat`, scanning left to right
      without overlap, replaced by `rep`. */
  function Replace(s: string, pat: string, rep: string): string
    requires pat != []
    decreases |s|
  {
    if |s| < |pat| then s
    else if s[..|pat|] == pat then rep + Replace(s[|pat|..], pat, rep)
    else [s[0]] + Replace(s[1..], pat, rep)
  }

  /** Where `pat` does not occur, `replace` changes nothing. */
  lemma {:induction false} ReplaceAbsent(s: string, pat: string, rep: string)
    requires pat != []
    requires !Occurs(s, pat)
    ensures Replace(s, pat, rep) == s
    decreases |s|
  {
    if |s| >= |pat| {
      assert !OccursAt(s, pat, 0);
      forall i | 0 <= i <= |s| - 1 ensures !OccursAt(s[1..], pat, i) {
        assert !OccursAt(s, pat, i + 1);
        if i + |pat| <= |s| - 1 {
          assert s[1..][i..i + |pat|] == s[i + 1..i + 1 + |pat|];
        }
      }
      ReplaceAbsent(s[1..], pat, rep);
      assert s == [s[0]] + s[1..];
    }
  }

  /** The scan replaces the first occurrence of `pat` and goes on after it:
      when `pat` occurs in `a + pat` first at `|a|`, the text before it is
      kept and the occurrence becomes `rep`. */
  lemma {:induction false} ReplaceFirst(a: string, pat: string, rep: string, b: string)
    requires pat != []
    requires forall i :: 0 <= i < |a| ==> !OccursAt(a + pat, pat, i)
    ensures Replace(a + pat + b, pat, rep) == a + rep + Replace(b, pat, rep)
    decreases |a|
  {
    var s := a + pat + b;
    var tail := Replace(b, pat, rep);
    if a == [] {
      assert s == pat + b;
      ReplaceAtMatch(pat, rep, b);
      assert a + rep + tail == rep + tail;
    } else {
      NoMatchAtStart(a, pat, b);
      ShiftNoOccurrence(a, pat);
      assert s[1..] == a[1..] + pat + b;
      assert Replace(s, pat, rep) == [s[0]] + Replace(s[1..], pat, rep);
      ReplaceFirst(a[1..], pat, rep, b);
      assert [a[0]] + (a[1..] + rep + tail) == a + rep + tail;
    }
  }

  lemma ReplaceAtMatch(pat: string, rep: string, b: string)
    requires pat != []
    ensures Replace(pat + b, pat, rep) == rep + Replace(b, pat, rep)
  {
    var s := pat + b;
    assert s[..|pat|] == pat && s[|pat|..] == b;
  }

  lemma NoMatchAtStart(a: string, pat: string, b: string)
    requires pat != [] && a != []
    requires !OccursAt(a + pat, pat, 0)
    ensures |a + pat + b| >= |pat| && (a + pat + b)[..|pat|] != pat
  {
    assert (a + pat)[0..|pat|] == (a + pat + b)[..|pat|];
  }

  lemma ShiftNoOccurrence(a: string, pat: string)
    requires a != []
    requires forall i :: 0 <= i < |a| ==> !OccursAt(a + pat, pat, i)
    ensures forall i :: 0 <= i < |a| - 1 ==> !OccursAt(a[1..] + pat, pat, i)
  {
    forall i | 0 <= i < |a| - 1 ensures !OccursAt(a[1..] + pat, pat, i) {
      assert !OccursAt(a + pat, pat, i + 1);
      assert (a[1..] + pat)[i..i + |pat|] == (a + pat)[i + 1..i + 1 + |pat|];
    }
  }

  /** Replacing one character by another is a pointwise map. */
  lemma {:induction false} ReplaceChar(s: string, pat: string, rep: string)
    requires |pat| == 1 && |rep| == 1
    ensures |Replace(s, pat, rep)| == |s|
    ensures forall i :: 0 <= i < |s| ==>
      Replace(s, pat, rep)[i] == if s[i] == pat[0] then rep[0] else s[i]
    decreases |s|
  {
    if |s| >= 1 {
      ReplaceChar(s[1..], pat, rep);
      assert s[..1] == pat <==> s[0] == pat[0];
    }
  }

  /** When the replacement starts with a character that `pat` lacks, text that
      avoids that character and opens a replaced string opened the original. */
  lemma {:induction false} ReplacePrefix(t: string, pat: string, rep: string, w: string)
    requires pat != [] && rep != [] && rep[0] !in w
    ensures IsPrefix(w, Replace(t, pat, rep)) ==> IsPrefix(w, t)
    decreases |t|
  {
    if |t| >= |pat| && w != [] {
      var out := Replace(t, pat, rep);
      if t[..|pat|] == pat {
        assert out[0] == rep[0];
      } else {
        var r := Replace(t[1..], pat, rep);
        assert out == [t[0]] + r;
        if IsPrefix(w, out) {
          assert IsPrefix(w[1..], r) by {
            assert r[..|w| - 1] == out[1..|w|];
          }
          ReplacePrefix(t[1..], pat, rep, w[1..]);
          assert t[..|w|] == [t[0]] + t[1..][..|w| - 1];
        }
      }
    }
  }

  /** No occurrence of `pat` is left after `replace`, provided `rep` cannot
      start or complete one. */
  lemma {:induction false} ReplaceLeavesNone(s: string, pat: string, rep: string)
    requires pat != [] && rep != []
    requires pat[0] !in rep && rep[0] !in pat
    ensures !Occurs(Replace(s, pat, rep), pat)
    decreases |s|
  {
    var out := Replace(s, pat, rep);
    if |s| < |pat| {
      assert forall i :: !OccursAt(out, pat, i);
    } else if s[..|pat|] == pat {
      ReplaceLeavesNone(s[|pat|..], pat, rep);
      NoneAfterReplacement(pat, rep, Replace(s[|pat|..], pat, rep));
    } else {
      ReplaceLeavesNone(s[1..], pat, rep);
      assert s == [s[0]] + s[1..];
      NoneAfterKept(s[0], s[1..], pat, rep);
    }
  }

  /** `rep` followed by text without `pat` holds no `pat` when `pat[0]` is
      not in `rep`. */
  lemma NoneAfterReplacement(pat: string, rep: string, r: string)
    requires pat != [] && pat[0] !in rep
    requires !Occurs(r, pat)
    ensures !Occurs(rep + r, pat)
  {
    var out := rep + r;
    forall i | 0 <= i <= |out| ensures !OccursAt(out, pat, i) {
      if i < |rep| {
        assert out[i] == rep[i];
      } else if i + |pat| <= |out| {
        assert out[i..i + |pat|] == r[i - |rep|..i - |rep| + |pat|];
        assert !OccursAt(r, pat, i - |rep|);
      }
    }
  }

  /** When the scan keeps a character `c` that does not open `pat`, what it
      produces holds no `pat` provided the rest it produces holds none. */
  lemma NoneAfterKept(c: char, t: string, pat: string, rep: string)
    requires pat != [] && rep != []
    requires pat[0] !in rep && rep[0] !in pat
    requires !IsPrefix(pat, [c] + t)
    requires !Occurs(Replace(t, pat, rep), pat)
    ensures !Occurs([c] + Replace(t, pat, rep), pat)
  {
    var r := Replace(t, pat, rep);
    var out := [c] + r;
    NoneAtKept(c, t, pat, rep);
    forall i | 1 <= i <= |out| ensures !OccursAt(out, pat, i) {
      if i + |pat| <= |out| {
        assert out[i..i + |pat|] == r[i - 1..i - 1 + |pat|];
        assert !OccursAt(r, pat, i - 1);
      }
    }
  }

  lemma NoneAtKept(c: char, t: string, pat: string, rep: string)
    requires pat != [] && rep != []
    requires rep[0] !in pat
    requires !IsPrefix(pat, [c] + t)
    ensures !OccursAt([c] + Replace(t, pat, rep), pat, 0)
  {
    var r := Replace(t, pat, rep);
    var out := [c] + r;
    var w := pat[1..];
    if OccursAt(out, pat, 0) {
      assert r[..|w|] == out[1..|pat|];
      assert rep[0] !in w by {
        assert forall k :: 0 <= k < |w| ==> w[k] == pat[k + 1];
      }
      assert |w| <= |t| ==> ([c] + t)[..|pat|] == [c] + t[..|w|];
      assert pat == [pat[0]] + w;
      ReplacePrefix(t, pat, rep, w);
    }
  }
}
