/** The Python string built-ins that linker.py relies on, with their CPython
    meaning: the `in` operator on strings, `str.replace`, `"\n".join` and the
    first element of `str.splitlines()`. */
module PyStrings {
  import opened Wrappers

  predicate StartsWith(s: string, p: string) {
    |p| <= |s| && s[..|p|] == p
  }

  /** `p in s` (substring containment), scanning s from the left. */
  predicate Contains(s: string, p: string)
    decreases |s|
  {
    StartsWith(s, p) || (|s| > 0 && Contains(s[1..], p))
  }

  /** p occurs in s starting at position k. */
  ghost predicate OccursAt(s: string, p: string, k: int) {
    0 <= k && k + |p| <= |s| && s[k..k + |p|] == p
  }

  /** `p in s` holds exactly when p occurs somewhere in s. */
  lemma {:induction false} ContainsIffOccurs(s: string, p: string)
    ensures Contains(s, p) <==> exists k :: OccursAt(s, p, k)
    decreases |s|
  {
    if StartsWith(s, p) {
      assert OccursAt(s, p, 0);
    } else if |s| > 0 {
      ContainsIffOccurs(s[1..], p);
      if Contains(s[1..], p) {
        var k :| OccursAt(s[1..], p, k);
        assert s[1..][k..k + |p|] == s[k + 1..k + 1 + |p|];
        assert OccursAt(s, p, k + 1);
      }
      forall k | OccursAt(s, p, k) ensures Contains(s[1..], p) {
        if k != 0 {
          assert s[1..][k - 1..k - 1 + |p|] == s[k..k + |p|];
          assert OccursAt(s[1..], p, k - 1);
        }
      }
    }
  }

  /** `s.replace("", r)`: CPython puts r before every character and at the end. */
  function InsertEverywhere(s: string, r: string): string {
    if s == [] then r else r + [s[0]] + InsertEverywhere(s[1..], r)
  }

  /** `s.replace(p, r)`: every non-overlapping occurrence of p, found from the
      left, is replaced by r. */
  function ReplaceAll(s: string, p: string, r: string): string
    decreases |s|
  {
    if p == [] then InsertEverywhere(s, r)
    else if StartsWith(s, p) then r + ReplaceAll(s[|p|..], p, r)
    else if s == [] then []
    else [s[0]] + ReplaceAll(s[1..], p, r)
  }

  /** str.replace finds the leftmost occurrence of a non-empty pattern,
      replaces it, and carries on after it. */
  lemma {:induction false} ReplaceLeftmost(s: string, p: string, r: string, k: nat)
    requires p != [] && OccursAt(s, p, k)
    requires forall j :: 0 <= j < k ==> !OccursAt(s, p, j)
    ensures ReplaceAll(s, p, r) == s[..k] + r + ReplaceAll(s[k + |p|..], p, r)
    decreases k
  {
    if k == 0 {
      assert StartsWith(s, p);
      assert s[..k] + r == r;
    } else {
      assert !OccursAt(s, p, 0);
      var t := s[1..];
      OccursInTail(s, p, k);
      ReplaceLeftmost(t, p, r, k - 1);
      assert t[k - 1 + |p|..] == s[k + |p|..];
      KeepFirst(s, p, r, k, ReplaceAll(s[k + |p|..], p, r));
    }
  }

  /** Occurrences in s[1..] are those of s, one position to the left. */
  lemma OccursInTail(s: string, p: string, k: nat)
    requires 0 < k && OccursAt(s, p, k)
    requires forall j :: 0 <= j < k ==> !OccursAt(s, p, j)
    ensures OccursAt(s[1..], p, k - 1)
    ensures forall j :: 0 <= j < k - 1 ==> !OccursAt(s[1..], p, j)
  {
    assert s[1..][k - 1..k - 1 + |p|] == s[k..k + |p|];
    forall j | 0 <= j < k - 1
      ensures !OccursAt(s[1..], p, j)
    {
      if OccursAt(s[1..], p, j) {
        assert s[1..][j..j + |p|] == s[j + 1..j + 1 + |p|];
        assert OccursAt(s, p, j + 1);
      }
    }
  }

  /** One step of ReplaceAll past a character where p does not start, with
      the rest known. */
  lemma KeepFirst(s: string, p: string, r: string, k: nat, rest: string)
    requires p != [] && 0 < k <= |s| && !StartsWith(s, p)
    requires ReplaceAll(s[1..], p, r) == s[1..][..k - 1] + r + rest
    ensures ReplaceAll(s, p, r) == s[..k] + r + rest
  {
    assert ReplaceAll(s, p, r) == [s[0]] + ReplaceAll(s[1..], p, r);
    assert [s[0]] + s[1..][..k - 1] == s[..k];
  }

  /** Replacing a non-empty pattern that does not occur leaves the text as it is. */
  lemma {:induction false} ReplaceAbsent(s: string, p: string, r: string)
    requires p != [] && !Contains(s, p)
    ensures ReplaceAll(s, p, r) == s
    decreases |s|
  {
    if s != [] {
      ReplaceAbsent(s[1..], p, r);
    }
  }

  /** `"\n".join(lines)`. */
  function JoinLines(lines: seq<string>): string {
    if |lines| == 0 then ""
    else if |lines| == 1 then lines[0]
    else lines[0] + "\n" + JoinLines(lines[1..])
  }

  /** The characters at which `str.splitlines` breaks a line. */
  predicate IsLineBoundary(c: char) {
    c == '\n' || c == '\r' || c == '\U{000B}' || c == '\U{000C}'
    || c == '\U{001C}' || c == '\U{001D}' || c == '\U{001E}'
    || c == '\U{0085}' || c == '\U{2028}' || c == '\U{2029}'
  }

  predicate NoLineBoundary(s: string) {
    forall i :: 0 <= i < |s| ==> !IsLineBoundary(s[i])
  }

  /** The longest prefix of s without a line boundary. */
  function TakeLine(s: string): (line: string)
    ensures |line| <= |s| && line == s[..|line|]
    ensures NoLineBoundary(line)
    ensures |line| < |s| ==> IsLineBoundary(s[|line|])
  {
    if s == [] || IsLineBoundary(s[0]) then [] else [s[0]] + TakeLine(s[1..])
  }

  /** `s.splitlines()[0]`: None where CPython raises IndexError, which is
      exactly when s is empty ("".splitlines() is []). */
  function FirstLine(s: string): (line: Option<string>)
    ensures line.None? <==> s == []
  {
    if s == [] then None else Some(TakeLine(s))
  }

  /** TakeLine stops at the first line boundary. */
  lemma {:induction false} TakeLineStopsAt(s: string, n: nat)
    requires n <= |s| && NoLineBoundary(s[..n])
    requires n < |s| ==> IsLineBoundary(s[n])
    ensures TakeLine(s) == s[..n]
  {
    if n > 0 {
      assert !IsLineBoundary(s[..n][0]);
      assert s[1..][..n - 1] == s[..n][1..];
      TakeLineStopsAt(s[1..], n - 1);
      assert s[..n] == [s[0]] + s[1..][..n - 1];
    }
  }

  /** The first line of a newline-joined list of lines without boundaries is
      the first of those lines, and is missing only when the join is empty. */
  lemma FirstLineOfJoin(lines: seq<string>)
    requires forall k :: 0 <= k < |lines| ==> NoLineBoundary(lines[k])
    ensures FirstLine(JoinLines(lines))
            == if lines == [] || lines == [""] then None else Some(lines[0])
  {
    if |lines| == 1 && lines[0] != [] {
      assert lines[0][..|lines[0]|] == lines[0];
      TakeLineStopsAt(lines[0], |lines[0]|);
    } else if |lines| >= 2 {
      var s := JoinLines(lines);
      var n := |lines[0]|;
      assert s == lines[0] + "\n" + JoinLines(lines[1..]);
      assert s[..n] == lines[0];
      TakeLineStopsAt(s, n);
    }
  }
}
