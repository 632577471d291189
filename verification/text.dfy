/**
 Character-level helpers mirroring the JavaScript string primitives the
 classroom app relies on: `trim`, `split(/\s+/)`, `join(' ')`, ASCII case
 folding, `includes`, `startsWith`, `padStart(2, '0')` and `String(n)` for
 integers.
 */
module Text {

  /** The characters JavaScript's `\s` and `String.prototype.trim` treat as
      white space: WhiteSpace plus LineTerminator of ECMA-262. */
  predicate IsSpace(c: char) {
    || c == ' ' || c == '\t' || c == '\n' || c == '\r'
    || c == '\U{000B}' || c == '\U{000C}' || c == '\U{00A0}' || c == '\U{FEFF}'
    || c == '\U{1680}' || ('\U{2000}' <= c <= '\U{200A}')
    || c == '\U{2028}' || c == '\U{2029}' || c == '\U{202F}' || c == '\U{205F}'
    || c == '\U{3000}'
  }

  predicate NoSpace(s: string) {
    forall i :: 0 <= i < |s| ==> !IsSpace(s[i])
  }

  predicate AllSpace(s: string) {
    forall i :: 0 <= i < |s| ==> IsSpace(s[i])
  }

  /** `s` has no white space at either end. */
  predicate Trimmed(s: string) {
    |s| == 0 || (!IsSpace(s[0]) && !IsSpace(s[|s| - 1]))
  }

  /** Number of white-space characters at the start of `s`. */
  function LeadingSpace(s: string): (n: nat)
    ensures n <= |s| && AllSpace(s[..n])
    ensures n < |s| ==> !IsSpace(s[n])
  {
    if |s| == 0 || !IsSpace(s[0]) then 0
    else
      var k := LeadingSpace(s[1..]);
      assert s[..1 + k] == [s[0]] + s[1..][..k];
      1 + k
  }

  /** Number of white-space characters at the end of `s`. */
  function TrailingSpace(s: string): (n: nat)
    ensures n <= |s| && AllSpace(s[|s| - n..])
    ensures n < |s| ==> !IsSpace(s[|s| - n - 1])
  {
    if |s| == 0 || !IsSpace(s[|s| - 1]) then 0
    else
      var t := s[..|s| - 1];
      var k := TrailingSpace(t);
      var u, v := s[|s| - 1 - k..], t[|t| - k..];
      forall j | 0 <= j < |u| ensures IsSpace(u[j]) {
        if j < k {
          assert u[j] == v[j];
        }
      }
      1 + k
  }

  /** Drops leading white space. */
  function TrimStart(s: string): (r: string)
    ensures |r| <= |s| && r == s[|s| - |r|..]
    ensures AllSpace(s[..|s| - |r|])
    ensures |r| > 0 ==> !IsSpace(r[0])
  {
    s[LeadingSpace(s)..]
  }

  /** Drops trailing white space. */
  function TrimEnd(s: string): (r: string)
    ensures |r| <= |s| && r == s[..|r|]
    ensures AllSpace(s[|r|..])
    ensures |r| > 0 ==> !IsSpace(r[|r| - 1])
  {
    s[..|s| - TrailingSpace(s)]
  }

  /** `String.prototype.trim`: the input with white space removed from both
      ends; empty exactly when the input is all white space. */
  function Trim(s: string): (r: string)
    ensures Trimmed(r)
    ensures r == [] <==> AllSpace(s)
  {
    var t := TrimStart(s);
    var r := TrimEnd(t);
    if r == [] then
      assert t[|r|..] == t;
      assert s[..|s| - |t|] == s;
      r
    else
      assert t[0] == r[0];
      assert s[|s| - |t|] == t[0];
      r
  }

  /** Trimming removes white space only, and only at the two ends: the
      result is a slice of the input with nothing but white space around
      it. */
  lemma TrimInfix(s: string)
    ensures exists i ::
              && 0 <= i <= |s| - |Trim(s)|
              && Trim(s) == s[i..i + |Trim(s)|]
              && AllSpace(s[..i])
              && AllSpace(s[i + |Trim(s)|..])
  {
    var t := TrimStart(s);
    var r := TrimEnd(t);
    var i := |s| - |t|;
    assert r == s[i..i + |r|];
    assert s[i + |r|..] == t[|r|..];
  }

  /** Trimming is idempotent: text without white space at either end is
      left as it is. */
  lemma TrimTrimmed(s: string)
    requires Trimmed(s)
    ensures Trim(s) == s
  {
    assert TrimStart(s) == s;
    assert TrimEnd(s) == s;
  }

  /** Length of the leading run of non-space characters. */
  function RunLength(s: string): (n: nat)
    ensures n <= |s|
    ensures NoSpace(s[..n])
    ensures n < |s| ==> IsSpace(s[n])
  {
    if |s| == 0 || IsSpace(s[0]) then 0
    else
      var k := RunLength(s[1..]);
      assert s[..1 + k] == [s[0]] + s[1..][..k];
      1 + k
  }

  predicate IsWord(w: string) {
    |w| > 0 && NoSpace(w)
  }

  /** The maximal runs of non-space characters of `s`, left to right. */
  function Words(s: string): (ws: seq<string>)
    ensures forall i :: 0 <= i < |ws| ==> IsWord(ws[i])
    ensures |ws| == 0 <==> AllSpace(s)
    decreases |s|
  {
    if |s| == 0 then []
    else if IsSpace(s[0]) then
      AllSpaceCons(s);
      Words(s[1..])
    else
      var k := RunLength(s);
      var rest := Words(s[k..]);
      var ws := [s[..k]] + rest;
      assert ws[0] == s[..k];
      assert forall i :: 1 <= i < |ws| ==> ws[i] == rest[i - 1];
      ws
  }

  lemma AllSpaceCons(s: string)
    requires |s| > 0 && IsSpace(s[0])
    ensures AllSpace(s) <==> AllSpace(s[1..])
  {
    if AllSpace(s[1..]) {
      forall i | 0 <= i < |s| ensures IsSpace(s[i]) {
        if i > 0 {
          assert s[i] == s[1..][i - 1];
        }
      }
    }
  }

  /** `words.join(' ')`. */
  function Join(ws: seq<string>): string {
    if |ws| == 0 then ""
    else if |ws| == 1 then ws[0]
    else ws[0] + " " + Join(ws[1..])
  }

  /** `s.split(/\s+/)` on a trimmed string, which is the only way the
      importer calls it: the empty string splits into one empty piece,
      anything else into its words. */
  function SplitWs(s: string): (ps: seq<string>)
    requires Trimmed(s)
    ensures |ps| >= 1
    ensures s != "" ==> ps == Words(s)
  {
    if s == "" then [""] else Words(s)
  }

  lemma WordsOfWordThenSpace(w: string, rest: string)
    requires IsWord(w)
    ensures Words(w + " " + rest) == [w] + Words(rest)
  {
    var sp := " " + rest;
    var s := w + sp;
    assert w + " " + rest == s;
    assert s[0] == w[0];
    RunLengthOfWord(w, sp);
    assert s[..|w|] == w;
    assert s[|w|..] == sp;
    assert sp[1..] == rest;
  }

  lemma RunLengthOfWord(w: string, rest: string)
    requires NoSpace(w)
    requires |rest| == 0 || IsSpace(rest[0])
    ensures RunLength(w + rest) == |w|
  {
    var s := w + rest;
    assert s[..|w|] == w;
    RunLengthIs(s, |w|);
  }

  /** The run length is the one position where the non-space prefix
      stops. */
  lemma RunLengthIs(s: string, k: nat)
    requires k <= |s| && NoSpace(s[..k]) && (k == |s| || IsSpace(s[k]))
    ensures RunLength(s) == k
    decreases k
  {
    if k > 0 {
      assert s[1..][..k - 1] == s[..k][1..];
      RunLengthIs(s[1..], k - 1);
    }
  }

  lemma WordsOfWord(w: string)
    requires IsWord(w)
    ensures Words(w) == [w]
  {
    RunLengthOfWord(w, "");
    assert w + "" == w;
    assert w[..|w|] == w;
    assert w[|w|..] == "";
  }

  /** Trimmed text with a single word is that word. */
  lemma OneWord(s: string)
    requires Trimmed(s) && |Words(s)| == 1
    ensures Words(s) == [s]
  {
    assert s[..RunLength(s)] == s;
  }

  /** Splitting a space-joined list of words gives the list back. */
  lemma {:induction false} WordsOfJoin(ws: seq<string>)
    requires forall i :: 0 <= i < |ws| ==> IsWord(ws[i])
    ensures Words(Join(ws)) == ws
  {
    if |ws| == 0 {
    } else if |ws| == 1 {
      WordsOfWord(ws[0]);
    } else {
      var tail := ws[1..];
      assert forall i :: 0 <= i < |tail| ==> IsWord(tail[i]) by {
        forall i | 0 <= i < |tail| ensures IsWord(tail[i]) {
          assert tail[i] == ws[i + 1];
        }
      }
      WordsOfJoin(tail);
      JoinCons(ws);
      WordsOfWordThenSpace(ws[0], Join(tail));
      assert [ws[0]] + tail == ws;
    }
  }

  /** A list with at least two elements joins as its head, a space, and
      the join of its tail; and as the join of all but the last, a space,
      and the last. */
  lemma JoinLast(ws: seq<string>)
    requires |ws| >= 2
    ensures Join(ws) == Join(ws[..|ws| - 1]) + " " + ws[|ws| - 1]
    decreases |ws|
  {
    var n := |ws|;
    var init := ws[..n - 1];
    if n == 2 {
      assert init == [ws[0]];
    } else {
      var tail := ws[1..];
      JoinLast(tail);
      assert tail[..n - 2] == init[1..];
      assert tail[n - 2] == ws[n - 1];
      JoinCons(ws);
      JoinCons(init);
      SpaceAssoc(ws[0], Join(init[1..]), ws[n - 1]);
    }
  }

  lemma JoinCons(ws: seq<string>)
    requires |ws| >= 2
    ensures Join(ws) == ws[0] + " " + Join(ws[1..])
  {
  }

  /** A space-joined list of one or more words is non-empty and has no
      white space at either end. */
  lemma JoinTrimmed(ws: seq<string>)
    requires |ws| >= 1
    requires forall i :: 0 <= i < |ws| ==> IsWord(ws[i])
    ensures Join(ws) != "" && Trimmed(Join(ws))
  {
    var head, last := ws[0], ws[|ws| - 1];
    JoinEnds(ws);
    assert !IsSpace(head[0]) && !IsSpace(last[|last| - 1]);
  }

  /** The join starts with the first word's first character and ends with
      the last word's last character. */
  lemma {:induction false} JoinEnds(ws: seq<string>)
    requires |ws| >= 1
    requires forall i :: 0 <= i < |ws| ==> |ws[i]| > 0
    ensures |Join(ws)| > 0
    ensures Join(ws)[0] == ws[0][0]
    ensures Join(ws)[|Join(ws)| - 1] == ws[|ws| - 1][|ws[|ws| - 1]| - 1]
    decreases |ws|
  {
    if |ws| >= 2 {
      var tail := ws[1..];
      JoinEnds(tail);
      var j, t := Join(ws), Join(tail);
      assert j == ws[0] + (" " + t);
      assert j[|j| - 1] == t[|t| - 1];
    }
  }

  lemma SpaceAssoc(a: string, b: string, c: string)
    ensures a + " " + (b + " " + c) == (a + " " + b) + " " + c
  {
  }

  // ---- ASCII case and substrings ----

  function LowerChar(c: char): char {
    if 'A' <= c <= 'Z' then (c as int + 32) as char else c
  }

  /** Lower-cases the ASCII letters of `s` and leaves everything else. */
  function Lower(s: string): (r: string)
    ensures |r| == |s|
    ensures forall i :: 0 <= i < |s| ==> r[i] == LowerChar(s[i])
  {
    if |s| == 0 then "" else [LowerChar(s[0])] + Lower(s[1..])
  }

  /** Lower-casing works character by character. */
  lemma LowerPointwise(x: string, z: string)
    requires |x| == |z|
    requires forall i :: 0 <= i < |x| ==> LowerChar(x[i]) == z[i]
    ensures Lower(x) == z
  {
  }

  /** `s.includes(p)`. */
  predicate Contains(s: string, p: string) {
    exists i | 0 <= i <= |s| - |p| :: OccursAt(s, p, i)
  }

  /** `p` occurs in `s` starting at index `i`. */
  predicate OccursAt(s: string, p: string, i: int) {
    0 <= i <= |s| - |p| && s[i..i + |p|] == p
  }

  /** `s.startsWith(p)`. */
  predicate StartsWith(s: string, p: string) {
    |p| <= |s| && s[..|p|] == p
  }

  /** A string containing `q` contains every substring of `q`. */
  lemma ContainsInner(s: string, q: string, j: nat, n: nat)
    requires Contains(s, q)
    requires j + n <= |q|
    ensures Contains(s, q[j..j + n])
  {
    var i :| 0 <= i <= |s| - |q| && OccursAt(s, q, i);
    var t := s[i..i + |q|];
    assert t == q;
    var u, v := s[i + j..i + j + n], q[j..j + n];
    forall k | 0 <= k < n
      ensures u[k] == v[k]
    {
      assert u[k] == s[i + j + k] == t[j + k];
    }
    assert u == v;
    assert OccursAt(s, q[j..j + n], i + j);
  }

  /** A pattern with a character that `s` lacks does not occur in `s`. */
  lemma LacksChar(s: string, p: string, j: nat)
    requires j < |p|
    requires forall i :: 0 <= i < |s| ==> s[i] != p[j]
    ensures !Contains(s, p)
  {
    forall i | 0 <= i <= |s| - |p|
      ensures !OccursAt(s, p, i)
    {
      assert s[i..i + |p|][j] != p[j];
    }
  }

  // ---- digits and numbers ----

  predicate IsDigit(c: char) {
    '0' <= c <= '9'
  }

  predicate AllDigits(s: string) {
    forall i :: 0 <= i < |s| ==> IsDigit(s[i])
  }

  lemma DigitNotSpace(c: char)
    requires IsDigit(c)
    ensures !IsSpace(c)
  {
  }

  /** `x.padStart(2, '0')`. */
  function Pad2(x: string): (r: string)
    ensures |x| < 2 ==> |r| == 2 && r[2 - |x|..] == x && AllZeros(r[..2 - |x|])
    ensures |x| >= 2 ==> r == x
  {
    if |x| == 0 then "00" else if |x| == 1 then "0" + x else x
  }

  predicate AllZeros(s: string) {
    forall i :: 0 <= i < |s| ==> s[i] == '0'
  }

  function DigitChar(d: nat): char
    requires d < 10
  {
    ('0' as int + d) as char
  }

  /** Decimal digits of a natural number, most significant first. */
  function NatDigits(n: nat): (r: string)
    ensures |r| >= 1 && AllDigits(r)
    ensures n < 10 ==> |r| == 1
    ensures n >= 10 ==> |r| >= 2
    ensures n == 0 ==> r == "0"
    ensures n > 0 ==> r[0] != '0'
  {
    if n < 10 then [DigitChar(n)] else NatDigits(n / 10) + [DigitChar(n % 10)]
  }

  /** The value of a string of decimal digits. */
  function DigitsValue(s: string): nat
    requires AllDigits(s)
  {
    if |s| == 0 then 0 else DigitsValue(s[..|s| - 1]) * 10 + (s[|s| - 1] as int - '0' as int)
  }

  /** Reading back the digits of `n` gives `n`. */
  lemma {:induction false} NatDigitsValue(n: nat)
    ensures DigitsValue(NatDigits(n)) == n
  {
    if n >= 10 {
      NatDigitsValue(n / 10);
      var r := NatDigits(n);
      assert r[..|r| - 1] == NatDigits(n / 10);
    }
  }

  /** `String(n)` for an integer. */
  function IntToString(n: int): (r: string)
    ensures |r| >= 1
    ensures n >= 0 ==> AllDigits(r) && DigitsValue(r) == n
    ensures n < 0 ==> r[0] == '-' && AllDigits(r[1..]) && DigitsValue(r[1..]) == -n
    ensures n >= 0 && r[0] == '0' ==> r == "0"
    ensures n < 0 ==> |r| >= 2 && r[1] != '0'
  {
    NatDigitsValue(if n >= 0 then n else -n);
    if n >= 0 then NatDigits(n) else
      var d := NatDigits(-n);
      assert ("-" + d)[1..] == d;
      "-" + d
  }

  /** Exactly `width` digits of `n`, zero-padded on the left. */
  function Digits(n: nat, width: nat): (r: string)
    ensures |r| == width && AllDigits(r)
    ensures n < Pow10(width) ==> DigitsValue(r) == n
  {
    if width == 0 then "" else
      var r := Digits(n / 10, width - 1) + [DigitChar(n % 10)];
      assert r[..|r| - 1] == Digits(n / 10, width - 1);
      r
  }

  function Pow10(k: nat): (p: nat)
    ensures p >= 1
  {
    if k == 0 then 1 else 10 * Pow10(k - 1)
  }
}
