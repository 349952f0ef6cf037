/**
 * The pieces of java.lang that Person.java leans on: the character classes of
 * its regular expressions and checks, ASCII case-insensitive comparison, and
 * `String.split("\\|")`, which cuts a string at every '|' and then drops the
 * empty pieces at the end.
 */
module JavaText {

  /** `\d` in a java.util.regex pattern (ASCII digits), also used for Character.isDigit. */
  predicate IsDigit(c: char) { '0' <= c <= '9' }

  predicate IsUpper(c: char) { 'A' <= c <= 'Z' }

  predicate IsLower(c: char) { 'a' <= c <= 'z' }

  /** Character.isLetterOrDigit, restricted to ASCII letters and digits. */
  predicate IsLetterOrDigit(c: char) { IsDigit(c) || IsUpper(c) || IsLower(c) }

  /** The characters that the regex `.` refuses to match (no DOTALL flag). */
  predicate IsLineTerminator(c: char) {
    c == '\n' || c == '\r' || c as int == 0x85 || c as int == 0x2028 || c as int == 0x2029
  }

  /** Character.getNumericValue of an ASCII digit. */
  function DigitValue(c: char): (v: nat)
    requires IsDigit(c)
    ensures v <= 9
  {
    c as int - '0' as int
  }

  /** Character.toLowerCase on ASCII letters; every other character is left alone. */
  function ToLower(c: char): (l: char)
    ensures !IsUpper(l)
    ensures l == c || (IsUpper(c) && l as int == c as int + 32)
  {
    if IsUpper(c) then (c as int + 32) as char else c
  }

  /** String.equalsIgnoreCase with ASCII case folding. */
  predicate EqualsIgnoreCase(a: string, b: string) {
    |a| == |b| && forall i :: 0 <= i < |a| ==> ToLower(a[i]) == ToLower(b[i])
  }

  /** The position of the first occurrence of `c` in `s`. */
  function IndexOf(s: string, c: char): (i: nat)
    requires c in s
    ensures i < |s| && s[i] == c && c !in s[..i]
  {
    if s[0] == c then 0
    else
      var i := 1 + IndexOf(s[1..], c);
      assert s[..i] == [s[0]] + s[1..][..i - 1];
      i
  }

  /** The pieces between the '|' separators of `s`, empty pieces included. */
  function Pieces(s: string): (ps: seq<string>)
    ensures |ps| >= 1
    decreases |s|
  {
    if '|' !in s then [s]
    else
      var i := IndexOf(s, '|');
      [s[..i]] + Pieces(s[i + 1..])
  }

  /** The pieces put back together with '|' between them. */
  function Join(ps: seq<string>): string
    requires |ps| >= 1
  {
    if |ps| == 1 then ps[0] else ps[0] + "|" + Join(ps[1..])
  }

  /** `ps` without its run of empty pieces at the end. */
  function DropTrailingEmpty(ps: seq<string>): (r: seq<string>)
    ensures |r| <= |ps| && r == ps[..|r|]
    ensures r == [] || r[|r| - 1] != ""
    ensures forall k :: |r| <= k < |ps| ==> ps[k] == ""
  {
    if |ps| > 0 && ps[|ps| - 1] == "" then DropTrailingEmpty(ps[..|ps| - 1]) else ps
  }

  /**
   * `s.split("\\|")`: with no '|' in `s` the result is `[s]`, even for the
   * empty string; otherwise the pieces with the trailing empty ones dropped.
   */
  function Split(s: string): seq<string> {
    if '|' !in s then [s] else DropTrailingEmpty(Pieces(s))
  }

  /** `k` separators in a row. */
  function Bars(k: nat): string {
    seq(k, _ => '|')
  }

  /** `k` empty pieces. */
  function Empties(k: nat): seq<string> {
    seq(k, _ => "")
  }

  /** Cutting a string at its separators loses nothing, and no piece holds a separator. */
  lemma {:induction false} PiecesRebuild(s: string)
    ensures Join(Pieces(s)) == s
    ensures forall k :: 0 <= k < |Pieces(s)| ==> '|' !in Pieces(s)[k]
    decreases |s|
  {
    if '|' in s {
      var i := IndexOf(s, '|');
      var p, t := s[..i], s[i + 1..];
      var ps := Pieces(s);
      PiecesRebuild(t);
      assert ps == [p] + Pieces(t);
      assert ps[1..] == Pieces(t);
      assert Join(ps) == p + "|" + Join(Pieces(t));
      assert s == p + "|" + t;
      forall k | 0 <= k < |ps|
        ensures '|' !in ps[k]
      {
        if k > 0 {
          assert ps[k] == Pieces(t)[k - 1];
        }
      }
    }
  }

  /** The first separator of `p + "|" + t` is the one right after a separator-free `p`. */
  lemma FirstSeparator(p: string, t: string)
    requires '|' !in p
    ensures IndexOf(p + "|" + t, '|') == |p|
  {
    var s := p + "|" + t;
    assert s[|p|] == '|';
    assert s[..|p|] == p;
  }

  /** Joining separator-free pieces and cutting again gives the same pieces. */
  lemma {:induction false} PiecesOfJoin(ps: seq<string>)
    requires |ps| >= 1
    requires forall k :: 0 <= k < |ps| ==> '|' !in ps[k]
    ensures Pieces(Join(ps)) == ps
    decreases |ps|
  {
    if |ps| > 1 {
      var p, t := ps[0], Join(ps[1..]);
      var s := p + "|" + t;
      assert Join(ps) == s;
      FirstSeparator(p, t);
      assert s[..|p|] == p;
      assert s[|p| + 1..] == t;
      PiecesOfJoin(ps[1..]);
      assert Pieces(s) == [p] + Pieces(t);
      assert ps == [p] + ps[1..];
    }
  }

  /** Appending one piece adds one separator and the piece. */
  lemma {:induction false} JoinSnoc(ps: seq<string>, q: string)
    requires |ps| >= 1
    ensures Join(ps + [q]) == Join(ps) + "|" + q
    decreases |ps|
  {
    if |ps| > 1 {
      assert (ps + [q])[1..] == ps[1..] + [q];
      JoinSnoc(ps[1..], q);
    }
  }

  /** Joining two piece lists puts one separator between them. */
  lemma {:induction false} JoinAppend(ps: seq<string>, qs: seq<string>)
    requires |ps| >= 1 && |qs| >= 1
    ensures Join(ps + qs) == Join(ps) + "|" + Join(qs)
    decreases |ps|
  {
    if |ps| > 1 {
      assert (ps + qs)[1..] == ps[1..] + qs;
      JoinAppend(ps[1..], qs);
    }
  }

  /** Empty pieces at the end show up as separators at the end. */
  lemma {:induction false} JoinEmpties(ps: seq<string>, k: nat)
    requires |ps| >= 1
    ensures Join(ps + Empties(k)) == Join(ps) + Bars(k)
    decreases k
  {
    if k == 0 {
      assert ps + Empties(0) == ps;
    } else {
      JoinEmpties(ps, k - 1);
      assert ps + Empties(k) == (ps + Empties(k - 1)) + [""];
      JoinSnoc(ps + Empties(k - 1), "");
      assert Bars(k) == Bars(k - 1) + "|";
    }
  }

  /** No piece of a split holds a separator. */
  lemma SplitBarFree(s: string)
    ensures forall k :: 0 <= k < |Split(s)| ==> '|' !in Split(s)[k]
  {
    if '|' in s {
      PiecesRebuild(s);
    }
  }

  /**
   * At least two separator-free pieces, the last one non-empty, joined and
   * followed by any number of separators, split back into exactly those pieces.
   */
  lemma SplitOfJoin(ps: seq<string>, k: nat)
    requires |ps| >= 2
    requires forall j :: 0 <= j < |ps| ==> '|' !in ps[j]
    requires ps[|ps| - 1] != ""
    ensures Split(Join(ps) + Bars(k)) == ps
  {
    var qs := ps + Empties(k);
    var s := Join(ps) + Bars(k);
    assert forall j :: 0 <= j < |qs| ==> '|' !in qs[j] by {
      forall j | 0 <= j < |qs| ensures '|' !in qs[j] {
        if j >= |ps| {
          assert qs[j] == "";
        }
      }
    }
    JoinEmpties(ps, k);
    PiecesOfJoin(qs);
    assert Pieces(s) == qs;
    assert s[|ps[0]|] == '|' by {
      assert Join(ps) == ps[0] + "|" + Join(ps[1..]);
    }
    DropEmpties(ps, k);
  }

  /** Dropping the empty pieces after a non-empty last piece gives back the pieces before them. */
  lemma DropEmpties(ps: seq<string>, k: nat)
    requires ps != [] && ps[|ps| - 1] != ""
    ensures DropTrailingEmpty(ps + Empties(k)) == ps
  {
    var qs := ps + Empties(k);
    var r := DropTrailingEmpty(qs);
    assert qs[|ps| - 1] != "";
    assert |r| == |ps|;
    assert r == qs[..|ps|];
  }

  /** A piece list is what dropping its trailing empty pieces left, followed by those empty pieces. */
  lemma DropTrailingRebuild(ps: seq<string>) returns (k: nat)
    ensures ps == DropTrailingEmpty(ps) + Empties(k)
  {
    var r := DropTrailingEmpty(ps);
    k := |ps| - |r|;
    var tail := ps[|r|..];
    assert tail == Empties(k) by {
      forall j | 0 <= j < k
        ensures tail[j] == ""
      {
        assert tail[j] == ps[|r| + j];
      }
    }
    assert ps == r + tail;
  }

  /**
   * Conversely, a string holding a separator whose split is not empty is its
   * split pieces joined again, followed by `k` separators; the pieces are
   * separator-free and the last one is not empty.
   */
  lemma SplitRebuild(s: string) returns (k: nat)
    requires '|' in s && Split(s) != []
    ensures s == Join(Split(s)) + Bars(k)
    ensures forall j :: 0 <= j < |Split(s)| ==> '|' !in Split(s)[j]
    ensures Split(s)[|Split(s)| - 1] != ""
  {
    var qs := Pieces(s);
    var r := Split(s);
    PiecesRebuild(s);
    SplitBarFree(s);
    k := DropTrailingRebuild(qs);
    JoinEmpties(r, k);
  }
}
