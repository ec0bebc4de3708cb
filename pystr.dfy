/**
 * The Python string built-ins the chatbot relies on, written out:
 * `str.isspace` on one character, `str.strip()` with no argument,
 * `str.split("\n\n")`, `"\n\n".join(...)` and `str(i)` for a
 * non-negative integer.
 */
module PyStr {

  // ---------------------------------------------------------------------
  // Whitespace and str.strip()
  // ---------------------------------------------------------------------

  /** The characters for which Python's `c.isspace()` holds, i.e. the
      characters `str.strip()` removes when called without an argument. */
  predicate IsSpace(c: char) {
    || ('\t' <= c <= '\r')               // \t \n \v \f \r
    || ('\U{1C}' <= c <= '\U{1F}')       // file, group, record, unit separators
    || c == ' '
    || c == '\U{85}'                     // next line
    || c == '\U{A0}'                     // no-break space
    || c == '\U{1680}'
    || ('\U{2000}' <= c <= '\U{200A}')
    || c == '\U{2028}' || c == '\U{2029}'
    || c == '\U{202F}' || c == '\U{205F}' || c == '\U{3000}'
  }

  predicate AllSpace(s: string) {
    forall i :: 0 <= i < |s| ==> IsSpace(s[i])
  }

  /** A string that `strip()` leaves alone: empty, or neither its first
      nor its last character is whitespace. */
  predicate IsStripped(s: string) {
    s == [] || (!IsSpace(s[0]) && !IsSpace(s[|s| - 1]))
  }

  function StripLeading(s: string): string
    decreases |s|
  {
    if |s| > 0 && IsSpace(s[0]) then StripLeading(s[1..]) else s
  }

  function StripTrailing(s: string): string
    decreases |s|
  {
    if |s| > 0 && IsSpace(s[|s| - 1]) then StripTrailing(s[..|s| - 1]) else s
  }

  /** Python's `s.strip()`. */
  function Strip(s: string): string {
    StripTrailing(StripLeading(s))
  }

  lemma {:induction false} LeadingParts(s: string) returns (lead: string)
    ensures s == lead + StripLeading(s) && AllSpace(lead)
    ensures StripLeading(s) == [] || !IsSpace(StripLeading(s)[0])
    decreases |s|
  {
    if |s| > 0 && IsSpace(s[0]) {
      var rest := LeadingParts(s[1..]);
      lead := [s[0]] + rest;
    } else {
      lead := [];
    }
  }

  lemma {:induction false} TrailingParts(s: string) returns (trail: string)
    ensures s == StripTrailing(s) + trail && AllSpace(trail)
    ensures StripTrailing(s) == [] || !IsSpace(StripTrailing(s)[|StripTrailing(s)| - 1])
    decreases |s|
  {
    if |s| > 0 && IsSpace(s[|s| - 1]) {
      var rest := TrailingParts(s[..|s| - 1]);
      trail := rest + [s[|s| - 1]];
    } else {
      trail := [];
    }
  }

  /** `strip()` cuts a string into whitespace, a stripped middle, and
      whitespace; the middle is what it returns. */
  lemma StripParts(s: string) returns (lead: string, trail: string)
    ensures s == lead + Strip(s) + trail
    ensures AllSpace(lead) && AllSpace(trail)
    ensures IsStripped(Strip(s))
  {
    lead := LeadingParts(s);
    var u := StripLeading(s);
    trail := TrailingParts(u);
    var r := StripTrailing(u);
    if r != [] {
      assert r[0] == u[0];
    }
  }

  lemma {:induction false} StripLeadingOfSpaces(lead: string, t: string)
    requires AllSpace(lead)
    requires t == [] || !IsSpace(t[0])
    ensures StripLeading(lead + t) == t
    decreases |lead|
  {
    if lead == [] {
      assert lead + t == t;
    } else {
      assert (lead + t)[1..] == lead[1..] + t;
      StripLeadingOfSpaces(lead[1..], t);
    }
  }

  lemma {:induction false} StripTrailingOfSpaces(t: string, trail: string)
    requires AllSpace(trail)
    requires t == [] || !IsSpace(t[|t| - 1])
    ensures StripTrailing(t + trail) == t
    decreases |trail|
  {
    if trail == [] {
      assert t + trail == t;
    } else {
      var n := |trail| - 1;
      assert (t + trail)[..|t + trail| - 1] == t + trail[..n];
      StripTrailingOfSpaces(t, trail[..n]);
    }
  }

  /** The converse of StripParts: padding a stripped string with
      whitespace on both sides and stripping gives it back. */
  lemma StripOfPadded(lead: string, m: string, trail: string)
    requires AllSpace(lead) && AllSpace(trail) && IsStripped(m)
    ensures Strip(lead + m + trail) == m
  {
    if m == [] {
      assert lead + m + trail == lead + trail;
      StripLeadingOfSpaces(lead + trail, []);
      assert lead + trail + [] == lead + trail;
    } else {
      assert lead + m + trail == lead + (m + trail);
      StripLeadingOfSpaces(lead, m + trail);
      StripTrailingOfSpaces(m, trail);
    }
  }

  /** A stripped string is a fixed point of `strip()`; in particular
      `strip()` is idempotent. */
  lemma StripFixedPoint(s: string)
    ensures IsStripped(s) ==> Strip(s) == s
    ensures Strip(Strip(s)) == Strip(s)
  {
    if IsStripped(s) {
      StripOfPadded([], s, []);
      assert [] + s + [] == s;
    }
    var lead, trail := StripParts(s);
    StripOfPadded([], Strip(s), []);
    assert [] + Strip(s) + [] == Strip(s);
  }

  /** `not s.strip()` holds exactly of the whitespace-only strings. */
  lemma StripEmptyIff(s: string)
    ensures Strip(s) == [] <==> AllSpace(s)
  {
    var lead, trail := StripParts(s);
    if AllSpace(s) {
      StripOfPadded(s, [], []);
      assert s + [] + [] == s;
    }
    if Strip(s) == [] {
      assert s == lead + trail;
      forall i | 0 <= i < |s| ensures IsSpace(s[i]) {
        if i < |lead| { assert s[i] == lead[i]; } else { assert s[i] == trail[i - |lead|]; }
      }
    }
  }

  // ---------------------------------------------------------------------
  // The blank-line separator, str.split and str.join
  // ---------------------------------------------------------------------

  const Sep: string := "\n\n"

  /** `"\n\n" not in s`: no two adjacent newlines. */
  predicate SepFree(s: string) {
    forall k :: 0 <= k < |s| - 1 ==> !(s[k] == '\n' && s[k + 1] == '\n')
  }

  predicate EndsInNewline(s: string) {
    |s| > 0 && s[|s| - 1] == '\n'
  }

  /** Python's `s.split("\n\n")`: the separator is matched leftmost
      first and matches do not overlap, so `"\n\n\n"` splits into
      `["", "\n"]`. Always at least one piece; `""` gives `[""]`. */
  function Split(s: string): (pieces: seq<string>)
    ensures |pieces| >= 1
    decreases |s|
  {
    if |s| < 2 then [s]
    else if s[0] == '\n' && s[1] == '\n' then [""] + Split(s[2..])
    else
      var rest := Split(s[1..]);
      [[s[0]] + rest[0]] + rest[1..]
  }

  /** Python's `"\n\n".join(pieces)`. */
  function Join(pieces: seq<string>): string
    decreases |pieces|
  {
    if |pieces| == 0 then ""
    else if |pieces| == 1 then pieces[0]
    else pieces[0] + Sep + Join(pieces[1..])
  }

  /** What it means for `pieces` to be `s.split("\n\n")`, stated without
      reference to how the split is computed: joining the pieces gives
      `s` back, no piece contains the separator, and no piece but the
      last ends in a newline (otherwise the separator would have matched
      one character earlier). */
  predicate IsSplitOf(pieces: seq<string>, s: string) {
    && |pieces| >= 1
    && Join(pieces) == s
    && (forall i :: 0 <= i < |pieces| ==> SepFree(pieces[i]))
    && (forall i :: 0 <= i < |pieces| - 1 ==> !EndsInNewline(pieces[i]))
  }

  lemma JoinConsHead(c: char, x: string, xs: seq<string>)
    ensures Join([[c] + x] + xs) == [c] + Join([x] + xs)
  {
  }

  lemma {:induction false} SplitJoin(s: string)
    ensures Join(Split(s)) == s
    decreases |s|
  {
    if |s| < 2 {
    } else if s[0] == '\n' && s[1] == '\n' {
      SplitJoin(s[2..]);
      assert ([""] + Split(s[2..]))[1..] == Split(s[2..]);
      assert s == Sep + s[2..];
    } else {
      var rest := Split(s[1..]);
      SplitJoin(s[1..]);
      JoinConsHead(s[0], rest[0], rest[1..]);
      assert [rest[0]] + rest[1..] == rest;
      assert s == [s[0]] + s[1..];
    }
  }

  /** `Split` computes the split that IsSplitOf describes. */
  lemma {:induction false} SplitIsSplitOf(s: string)
    ensures IsSplitOf(Split(s), s)
    decreases |s|
  {
    SplitJoin(s);
    var r := Split(s);
    if |s| < 2 {
    } else if s[0] == '\n' && s[1] == '\n' {
      SplitIsSplitOf(s[2..]);
      var rest := Split(s[2..]);
      assert r == [""] + rest;
      forall i | 0 <= i < |r| ensures SepFree(r[i]) {
        if i > 0 { assert r[i] == rest[i - 1]; }
      }
      forall i | 0 <= i < |r| - 1 ensures !EndsInNewline(r[i]) {
        if i > 0 { assert r[i] == rest[i - 1]; }
      }
    } else {
      SplitIsSplitOf(s[1..]);
      var rest := Split(s[1..]);
      var p := [s[0]] + rest[0];
      assert r == [p] + rest[1..];
      // rest[0] is a prefix of s[1..]; when there are more pieces,
      // the separator follows it there.
      var tail := s[1..];
      if |rest| == 1 {
        assert tail == rest[0];
      } else {
        assert [rest[0]] + rest[1..] == rest;
        assert tail == rest[0] + Sep + Join(rest[1..]);
        assert tail[|rest[0]|] == '\n' && tail[|rest[0]| + 1] == '\n';
      }
      assert |rest[0]| > 0 ==> rest[0][0] == tail[0] == s[1];
      assert SepFree(rest[0]);
      forall k | 0 <= k < |p| - 1 ensures !(p[k] == '\n' && p[k + 1] == '\n') {
        if k > 0 { assert p[k] == rest[0][k - 1] && p[k + 1] == rest[0][k]; }
      }
      forall i | 0 <= i < |r| ensures SepFree(r[i]) {
        if i > 0 { assert r[i] == rest[i]; }
      }
      forall i | 0 <= i < |r| - 1 ensures !EndsInNewline(r[i]) {
        if i > 0 {
          assert r[i] == rest[i];
        } else if |rest[0]| > 0 {
          assert !EndsInNewline(rest[0]);
          assert p[|p| - 1] == rest[0][|rest[0]| - 1];
        } else {
          assert tail[0] == '\n';
        }
      }
    }
  }

  lemma {:induction false} SplitOfSepFree(p: string)
    requires SepFree(p)
    ensures Split(p) == [p]
    decreases |p|
  {
    if |p| >= 2 {
      SplitOfSepFree(p[1..]);
      assert [p[0]] + p[1..] == p;
    }
  }

  /** A piece that cannot take part in a match ends at the first
      separator after it. */
  lemma {:induction false} SplitAfterPiece(p: string, t: string)
    requires SepFree(p) && !EndsInNewline(p)
    ensures Split(p + Sep + t) == [p] + Split(t)
    decreases |p|
  {
    var s := p + Sep + t;
    if p == [] {
      assert s == Sep + t;
      assert s[2..] == t;
    } else {
      var q := p[1..];
      assert s[1..] == q + Sep + t;
      assert s[0] != '\n' || s[1] != '\n' by {
        if |q| == 0 { assert s[0] == p[|p| - 1]; } else { assert s[1] == p[1]; }
      }
      assert SepFree(q) by {
        forall k | 0 <= k < |q| - 1 ensures !(q[k] == '\n' && q[k + 1] == '\n') {
          assert q[k] == p[k + 1] && q[k + 1] == p[k + 2];
        }
      }
      assert !EndsInNewline(q) by {
        if |q| > 0 { assert q[|q| - 1] == p[|p| - 1]; }
      }
      SplitAfterPiece(q, t);
      assert [p[0]] + q == p;
    }
  }

  /** The split of a string is unique: any list that IsSplitOf describes
      is the one `Split` returns. */
  lemma {:induction false} SplitUnique(pieces: seq<string>, s: string)
    requires IsSplitOf(pieces, s)
    ensures Split(s) == pieces
    decreases |pieces|
  {
    if |pieces| == 1 {
      SplitOfSepFree(pieces[0]);
    } else {
      var rest := pieces[1..];
      assert IsSplitOf(rest, Join(rest)) by {
        forall i | 0 <= i < |rest| ensures SepFree(rest[i]) {
          assert rest[i] == pieces[i + 1];
        }
        forall i | 0 <= i < |rest| - 1 ensures !EndsInNewline(rest[i]) {
          assert rest[i] == pieces[i + 1];
        }
      }
      SplitUnique(rest, Join(rest));
      SplitAfterPiece(pieces[0], Join(rest));
      assert [pieces[0]] + rest == pieces;
    }
  }

  /** An infix of a separator-free string is separator-free. */
  lemma SepFreeInfix(lead: string, m: string, trail: string)
    requires SepFree(lead + m + trail)
    ensures SepFree(m)
  {
    var s := lead + m + trail;
    forall k | 0 <= k < |m| - 1 ensures !(m[k] == '\n' && m[k + 1] == '\n') {
      assert m[k] == s[|lead| + k] && m[k + 1] == s[|lead| + k + 1];
    }
  }

  // ---------------------------------------------------------------------
  // str(i) for a non-negative integer
  // ---------------------------------------------------------------------

  predicate IsDigit(c: char) {
    '0' <= c <= '9'
  }

  function DigitChar(d: nat): (c: char)
    requires d < 10
    ensures IsDigit(c)
  {
    ('0' as int + d) as char
  }

  function DigitValue(c: char): (d: nat)
    requires IsDigit(c)
    ensures d < 10 && DigitChar(d) == c
  {
    c as int - '0' as int
  }

  /** Python's `str(n)` for `n >= 0`: decimal digits, no leading zero
      except for `"0"` itself. */
  function Str(n: nat): (s: string)
    ensures |s| >= 1
    ensures forall i :: 0 <= i < |s| ==> IsDigit(s[i])
    ensures s[0] == '0' <==> n == 0
    decreases n
  {
    if n < 10 then [DigitChar(n)] else Str(n / 10) + [DigitChar(n % 10)]
  }

  /** Python's `int(s)` on a string of decimal digits. */
  function ParseDecimal(s: string): nat
    requires forall i :: 0 <= i < |s| ==> IsDigit(s[i])
    decreases |s|
  {
    if s == [] then 0
    else 10 * ParseDecimal(s[..|s| - 1]) + DigitValue(s[|s| - 1])
  }

  /** `int(str(n)) == n`. */
  lemma {:induction false} ParseStr(n: nat)
    ensures ParseDecimal(Str(n)) == n
    decreases n
  {
    var s := Str(n);
    if n < 10 {
      assert s[..0] == [];
    } else {
      ParseStr(n / 10);
      assert s[..|s| - 1] == Str(n / 10);
      assert DigitValue(DigitChar(n % 10)) == n % 10;
    }
  }

  /** Distinct numbers have distinct decimal forms. */
  lemma StrInjective(m: nat, n: nat)
    ensures Str(m) == Str(n) ==> m == n
  {
    ParseStr(m);
    ParseStr(n);
  }
}
