/**
 * Character and string helpers shared by the components: the subset of
 * JavaScript's `trim`, `toLowerCase`, `toUpperCase`, `split` and `join`
 * that the client relies on. Case mapping covers the ASCII letters only and
 * `trim` removes a fixed set of white-space characters.
 */
module Text {

  /** The characters `trim` removes (a fixed subset of JavaScript's white space). */
  predicate IsSpace(c: char) {
    c == ' ' || c == '\t' || c == '\n' || c == '\r' || c == '\U{B}' || c == '\U{C}'
    || c == '\U{A0}' || c == '\U{FEFF}' || c == '\U{2028}' || c == '\U{2029}'
  }

  predicate AllSpace(s: string) {
    forall i :: 0 <= i < |s| ==> IsSpace(s[i])
  }

  predicate IsUpper(c: char) { 'A' <= c <= 'Z' }

  predicate IsLower(c: char) { 'a' <= c <= 'z' }

  predicate HasUpper(s: string) {
    exists i :: 0 <= i < |s| && IsUpper(s[i])
  }

  // ---------------------------------------------------------------- case mapping

  function LowerChar(c: char): char {
    if IsUpper(c) then (c as int + 32) as char else c
  }

  function UpperChar(c: char): char {
    if IsLower(c) then (c as int - 32) as char else c
  }

  /** `s.toLowerCase()` restricted to ASCII letters. */
  function Lower(s: string): (r: string)
    ensures |r| == |s|
    ensures forall i :: 0 <= i < |s| ==> r[i] == LowerChar(s[i])
  {
    seq(|s|, i requires 0 <= i < |s| => LowerChar(s[i]))
  }

  /** `s.toUpperCase()` restricted to ASCII letters. */
  function Upper(s: string): (r: string)
    ensures |r| == |s|
    ensures forall i :: 0 <= i < |s| ==> r[i] == UpperChar(s[i])
  {
    seq(|s|, i requires 0 <= i < |s| => UpperChar(s[i]))
  }

  /** Lower-casing leaves no upper-case letter and changes nothing but upper-case letters. */
  lemma LowerSpec(s: string)
    ensures !HasUpper(Lower(s))
    ensures forall i :: 0 <= i < |s| && !IsUpper(s[i]) ==> Lower(s)[i] == s[i]
    ensures forall i :: 0 <= i < |s| ==> IsSpace(Lower(s)[i]) == IsSpace(s[i])
    ensures Lower(Lower(s)) == Lower(s)
  {
  }

  // ---------------------------------------------------------------- lengths

  /** The UTF-16 code units that encode `c`: two outside the Basic Multilingual Plane. */
  function Utf16Units(c: char): nat {
    if c as int >= 0x1_0000 then 2 else 1
  }

  /** JavaScript's `s.length`, which counts UTF-16 code units rather than characters. */
  function Utf16Length(s: string): (n: nat)
    ensures |s| <= n <= 2 * |s|
    ensures n == 0 <==> |s| == 0
  {
    if |s| == 0 then 0 else Utf16Units(s[0]) + Utf16Length(s[1..])
  }

  /** Only characters outside the Basic Multilingual Plane make `length` exceed the character count. */
  lemma {:induction false} Utf16LengthOfBmp(s: string)
    requires forall i :: 0 <= i < |s| ==> s[i] as int < 0x1_0000
    ensures Utf16Length(s) == |s|
  {
    if |s| > 0 {
      Utf16LengthOfBmp(s[1..]);
    }
  }

  // ---------------------------------------------------------------- trim

  function TrimStart(s: string): (r: string)
    ensures |r| <= |s| && r == s[|s| - |r|..]
    ensures AllSpace(s[..|s| - |r|])
    ensures |r| > 0 ==> !IsSpace(r[0])
    decreases |s|
  {
    if |s| > 0 && IsSpace(s[0]) then TrimStart(s[1..]) else s
  }

  function TrimEnd(s: string): (r: string)
    ensures |r| <= |s| && r == s[..|r|]
    ensures AllSpace(s[|r|..])
    ensures |r| > 0 ==> !IsSpace(r[|r| - 1])
    decreases |s|
  {
    if |s| > 0 && IsSpace(s[|s| - 1]) then
      var r := TrimEnd(s[..|s| - 1]);
      assert s[|r|..] == s[..|s| - 1][|r|..] + [s[|s| - 1]];
      r
    else s
  }

  /** `r` is `s[a..]` cut to `|r|` characters, with only white space around it. */
  predicate MiddleOf(s: string, r: string, a: int) {
    0 <= a <= |s| - |r| && r == s[a..a + |r|] && AllSpace(s[..a]) && AllSpace(s[a + |r|..])
  }

  /**
   * `s.trim()`: the contiguous middle of `s` that starts and ends with a
   * non-space character, every dropped character being a space.
   */
  function Trim(s: string): (r: string)
    ensures |r| <= |s|
    ensures |r| > 0 ==> !IsSpace(r[0]) && !IsSpace(r[|r| - 1])
    ensures exists a :: MiddleOf(s, r, a)
  {
    var t := TrimStart(s);
    var r := TrimEnd(t);
    var a := |s| - |t|;
    assert s[a + |r|..] == t[|r|..];
    assert MiddleOf(s, r, a);
    r
  }

  /** A string trims to nothing exactly when it is all white space. */
  lemma TrimEmptyIffAllSpace(s: string)
    ensures |Trim(s)| == 0 <==> AllSpace(s)
  {
    var r := Trim(s);
    var a :| MiddleOf(s, r, a);
    if |r| == 0 {
      forall i | 0 <= i < |s| ensures IsSpace(s[i]) {
        if i < a { assert s[..a][i] == s[i]; } else { assert s[a..][i - a] == s[i]; }
      }
    } else {
      assert s[a] == r[0];
    }
  }

  /** A string with no leading or trailing white space is its own trim. */
  lemma TrimOfTrimmed(s: string)
    requires |s| > 0 ==> !IsSpace(s[0]) && !IsSpace(s[|s| - 1])
    ensures Trim(s) == s
  {
  }

  /** Trimming twice is trimming once. */
  lemma TrimIdempotent(s: string)
    ensures Trim(Trim(s)) == Trim(s)
  {
    TrimOfTrimmed(Trim(s));
  }

  // ---------------------------------------------------------------- split and join

  predicate Contains(s: string, c: char) {
    exists i :: 0 <= i < |s| && s[i] == c
  }

  function Count(s: string, c: char): (n: nat)
    ensures n <= |s|
    ensures n == 0 <==> !Contains(s, c)
  {
    if |s| == 0 then 0
    else
      var rest := Count(s[1..], c);
      assert forall i :: 0 < i < |s| ==> s[i] == s[1..][i - 1];
      (if s[0] == c then 1 else 0) + rest
  }

  /**
   * `s.split(d)` for a one-character separator: the maximal runs between
   * separators, so `"a/b/"` gives `["a", "b", ""]` and `""` gives `[""]`.
   */
  function Split(s: string, d: char): (parts: seq<string>)
    ensures |parts| == Count(s, d) + 1
    ensures forall k :: 0 <= k < |parts| ==> !Contains(parts[k], d)
    decreases |s|
  {
    if |s| == 0 then [""]
    else
      var rest := Split(s[1..], d);
      if s[0] == d then [""] + rest
      else
        var head := [s[0]] + rest[0];
        assert !Contains(head, d) by {
          forall i | 0 < i < |head| ensures head[i] != d { assert head[i] == rest[0][i - 1]; }
        }
        [head] + rest[1..]
  }

  /** `xs.join(d)` for a one-character separator: `[]` gives `""`. */
  function Join(xs: seq<string>, d: char): string
    decreases |xs|
  {
    if |xs| == 0 then ""
    else if |xs| == 1 then xs[0]
    else xs[0] + [d] + Join(xs[1..], d)
  }

  /** Joining the parts of a split restores the string. */
  lemma {:induction false} JoinSplit(s: string, d: char)
    ensures Join(Split(s, d), d) == s
    decreases |s|
  {
    if |s| > 0 {
      JoinSplit(s[1..], d);
      var rest := Split(s[1..], d);
      if s[0] == d {
        assert Join([""] + rest, d) == "" + [d] + Join(rest, d);
      } else {
        var parts := Split(s, d);
        assert parts[1..] == rest[1..];
        if |rest| == 1 {
          assert Join(parts, d) == [s[0]] + rest[0];
        } else {
          assert Join(rest, d) == rest[0] + [d] + Join(rest[1..], d);
        }
      }
    }
  }

  /** Splitting a join restores the list when no element holds the separator. */
  lemma {:induction false} SplitJoin(xs: seq<string>, d: char)
    requires |xs| >= 1
    requires forall k :: 0 <= k < |xs| ==> !Contains(xs[k], d)
    ensures Split(Join(xs, d), d) == xs
    decreases |xs|, |xs[0]|
  {
    if |xs[0]| > 0 {
      var x := xs[0];
      var ys := [x[1..]] + xs[1..];
      assert !Contains(x[1..], d) by {
        forall i | 0 <= i < |x[1..]| ensures x[1..][i] != d { assert x[1..][i] == x[i + 1]; }
      }
      SplitJoin(ys, d);
      if |xs| == 1 {
        assert Join(xs, d) == x;
        assert Join(ys, d) == x[1..];
      } else {
        assert Join(xs, d) == x + [d] + Join(xs[1..], d);
        assert Join(ys, d) == x[1..] + [d] + Join(xs[1..], d);
        assert Join(xs, d)[1..] == Join(ys, d);
      }
      assert x[0] != d;
      assert Join(xs, d)[0] == x[0];
      assert [x[0]] + x[1..] == x;
    } else if |xs| > 1 {
      SplitJoin(xs[1..], d);
      assert Join(xs, d) == [d] + Join(xs[1..], d);
      assert Join(xs, d)[1..] == Join(xs[1..], d);
    }
  }

  /** A join of two or more elements ends with the separator and the last element. */
  lemma {:induction false} JoinLast(xs: seq<string>, d: char)
    requires |xs| >= 2
    ensures Join(xs, d) == Join(xs[..|xs| - 1], d) + [d] + xs[|xs| - 1]
    decreases |xs|
  {
    var n := |xs|;
    if n == 2 {
      assert Join(xs[1..], d) == xs[1];
      assert Join(xs[..1], d) == xs[0];
    } else {
      JoinLast(xs[1..], d);
      assert xs[..n - 1][1..] == xs[1..][..n - 2];
      assert Join(xs[..n - 1], d) == xs[0] + [d] + Join(xs[..n - 1][1..], d);
    }
  }

  /** Every character of a join is the separator or a character of some element. */
  lemma {:induction false} JoinChars(xs: seq<string>, d: char, i: nat)
    requires i < |Join(xs, d)|
    ensures Join(xs, d)[i] == d || exists k, j :: 0 <= k < |xs| && 0 <= j < |xs[k]| && xs[k][j] == Join(xs, d)[i]
    decreases |xs|
  {
    if |xs| > 1 {
      var c := Join(xs, d)[i];
      if i < |xs[0]| {
        assert xs[0][i] == c;
      } else if i > |xs[0]| {
        var i' := i - |xs[0]| - 1;
        assert Join(xs[1..], d)[i'] == c;
        JoinChars(xs[1..], d, i');
        if c != d {
          var k, j :| 0 <= k < |xs[1..]| && 0 <= j < |xs[1..][k]| && xs[1..][k][j] == c;
          assert xs[k + 1][j] == c;
        }
      }
    } else if |xs| == 1 {
      assert xs[0][i] == Join(xs, d)[i];
    }
  }

  /** Every character of every element occurs in the join. */
  lemma {:induction false} JoinKeepsChars(xs: seq<string>, d: char, k: nat, j: nat)
    requires k < |xs| && j < |xs[k]|
    ensures Contains(Join(xs, d), xs[k][j])
    decreases |xs|
  {
    var J := Join(xs, d);
    if |xs| == 1 {
      assert J[j] == xs[0][j];
    } else if k == 0 {
      assert J[j] == xs[0][j];
    } else {
      JoinKeepsChars(xs[1..], d, k - 1, j);
      var i :| 0 <= i < |Join(xs[1..], d)| && Join(xs[1..], d)[i] == xs[k][j];
      assert J[|xs[0]| + 1 + i] == xs[k][j];
    }
  }

  // ---------------------------------------------------------------- prefix before a character

  /** `s.split(c)[0]`: everything before the first `c`, or all of `s`. */
  function Before(s: string, c: char): (r: string)
    ensures r == Split(s, c)[0]
    ensures |r| <= |s| && r == s[..|r|]
    ensures !Contains(r, c)
    ensures |r| < |s| ==> s[|r|] == c
    decreases |s|
  {
    if |s| == 0 || s[0] == c then ""
    else
      var rest := Before(s[1..], c);
      var r := [s[0]] + rest;
      assert !Contains(r, c) by {
        forall i | 0 < i < |r| ensures r[i] != c { assert r[i] == rest[i - 1]; }
      }
      r
  }

  // ---------------------------------------------------------------- lexicographic order

  /**
   * The default string order of JavaScript's `sort()` and of `<`/`>` on
   * strings: character by character, a proper prefix first.
   */
  predicate LexLe(a: string, b: string)
    decreases |a|
  {
    |a| == 0 || (|b| > 0 && (a[0] < b[0] || (a[0] == b[0] && LexLe(a[1..], b[1..]))))
  }

  lemma LexLeRefl(a: string)
    ensures LexLe(a, a)
  {
  }

  lemma LexLeTotal(a: string, b: string)
    ensures LexLe(a, b) || LexLe(b, a)
  {
  }

  lemma {:induction false} LexLeAntisym(a: string, b: string)
    requires LexLe(a, b) && LexLe(b, a)
    ensures a == b
    decreases |a|
  {
    if |a| > 0 {
      LexLeAntisym(a[1..], b[1..]);
      assert a == [a[0]] + a[1..] && b == [b[0]] + b[1..];
    }
  }

  lemma {:induction false} LexLeTrans(a: string, b: string, c: string)
    requires LexLe(a, b) && LexLe(b, c)
    ensures LexLe(a, c)
    decreases |a|
  {
    if |a| > 0 && a[0] == b[0] && b[0] == c[0] {
      LexLeTrans(a[1..], b[1..], c[1..]);
    }
  }
}
