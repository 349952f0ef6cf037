/**
 * The field shape checks that both `addPerson` and `updatePersonalDetails`
 * run before touching the store: the person ID, the address and the
 * birthdate.
 */
module PersonFields {
  import opened JavaText
  import opened Dates

  /** `[2-9]` */
  predicate IsTwoToNine(c: char) { '2' <= c <= '9' }

  /** A character that is neither a letter nor a digit. */
  predicate IsSpecial(c: char) { !IsLetterOrDigit(c) }

  /** How many characters of `s` are neither letters nor digits. */
  function SpecialCount(s: string): (n: nat)
    ensures n <= |s|
  {
    if s == [] then 0 else (if IsSpecial(s[0]) then 1 else 0) + SpecialCount(s[1..])
  }

  /**
   * The ID regex `^[2-9]{2}X{6}[A-Z]{2}$`, where X is `[\w\W]` (any
   * character) in `addPerson` and `.` (any character but a line terminator)
   * in `updatePersonalDetails`.
   */
  predicate IdPattern(id: string, middleMatchesAll: bool) {
    && |id| == 10
    && IsTwoToNine(id[0]) && IsTwoToNine(id[1])
    && IsUpper(id[8]) && IsUpper(id[9])
    && (middleMatchesAll || forall k :: 2 <= k < 8 ==> !IsLineTerminator(id[k]))
  }

  /** The ID check of `addPerson`: the pattern, then at least two specials among positions 2..7. */
  predicate AddIdShape(id: string) {
    IdPattern(id, true) && SpecialCount(id[2..8]) >= 2
  }

  /** The new-ID check of `updatePersonalDetails`. */
  predicate UpdateIdShape(id: string) {
    IdPattern(id, false) && SpecialCount(id[2..8]) >= 2
  }

  /** The address check: five pieces after splitting, piece 3 "Victoria" in any case. */
  predicate AddressShape(address: string) {
    var parts := Split(address);
    |parts| == 5 && EqualsIgnoreCase(parts[3], "Victoria")
  }

  /** The birthdate check: `^\d{2}-\d{2}-\d{4}$`, with no calendar check. */
  predicate BirthdateShape(birthdate: string) {
    DateShape(birthdate)
  }

  /** A string has at least one special character exactly when its count is positive. */
  lemma {:induction false} SpecialCountPositive(s: string)
    ensures SpecialCount(s) >= 1 <==> exists i :: 0 <= i < |s| && IsSpecial(s[i])
    decreases |s|
  {
    if s != [] {
      SpecialCountPositive(s[1..]);
      if exists i :: 0 <= i < |s| && IsSpecial(s[i]) {
        var i :| 0 <= i < |s| && IsSpecial(s[i]);
        if i > 0 {
          assert IsSpecial(s[1..][i - 1]);
        }
      }
      if exists i :: 0 <= i < |s[1..]| && IsSpecial(s[1..][i]) {
        var i :| 0 <= i < |s[1..]| && IsSpecial(s[1..][i]);
        assert IsSpecial(s[i + 1]);
      }
    }
  }

  /** The count reaches two exactly when two different positions hold special characters. */
  lemma {:induction false} SpecialCountAtLeastTwo(s: string)
    ensures SpecialCount(s) >= 2 <==>
      exists i, j :: 0 <= i < j < |s| && IsSpecial(s[i]) && IsSpecial(s[j])
    decreases |s|
  {
    if s != [] {
      var t := s[1..];
      SpecialCountAtLeastTwo(t);
      SpecialCountPositive(t);
      if SpecialCount(s) >= 2 {
        if IsSpecial(s[0]) {
          var j :| 0 <= j < |t| && IsSpecial(t[j]);
          assert IsSpecial(s[j + 1]);
        } else {
          var i, j :| 0 <= i < j < |t| && IsSpecial(t[i]) && IsSpecial(t[j]);
          assert IsSpecial(s[i + 1]) && IsSpecial(s[j + 1]);
        }
      }
      if exists i, j :: 0 <= i < j < |s| && IsSpecial(s[i]) && IsSpecial(s[j]) {
        var i, j :| 0 <= i < j < |s| && IsSpecial(s[i]) && IsSpecial(s[j]);
        assert IsSpecial(t[j - 1]);
        if i > 0 {
          assert IsSpecial(t[i - 1]);
        }
      }
    }
  }

  /**
   * `addPerson` accepts an ID exactly when it has 10 characters, the first
   * two in '2'..'9', the last two in 'A'..'Z', and two different positions
   * among 2..7 hold characters that are neither letters nor digits.
   */
  lemma AddIdShapeExplicit(id: string)
    ensures AddIdShape(id) <==>
      && |id| == 10
      && IsTwoToNine(id[0]) && IsTwoToNine(id[1])
      && IsUpper(id[8]) && IsUpper(id[9])
      && exists i, j :: 2 <= i < j < 8 && IsSpecial(id[i]) && IsSpecial(id[j])
  {
    if |id| == 10 {
      var middle := id[2..8];
      SpecialCountAtLeastTwo(middle);
      if exists i, j :: 0 <= i < j < |middle| && IsSpecial(middle[i]) && IsSpecial(middle[j]) {
        var i, j :| 0 <= i < j < |middle| && IsSpecial(middle[i]) && IsSpecial(middle[j]);
        assert IsSpecial(id[i + 2]) && IsSpecial(id[j + 2]);
      }
      if exists i, j :: 2 <= i < j < 8 && IsSpecial(id[i]) && IsSpecial(id[j]) {
        var i, j :| 2 <= i < j < 8 && IsSpecial(id[i]) && IsSpecial(id[j]);
        assert IsSpecial(middle[i - 2]) && IsSpecial(middle[j - 2]);
      }
    }
  }

  /**
   * The update's new-ID check is `addPerson`'s plus one more demand: no line
   * terminator among positions 2..7. An ID with newlines there passes only
   * `addPerson`'s check.
   */
  lemma UpdateIdShapeNarrower(id: string)
    ensures UpdateIdShape(id) <==> AddIdShape(id) && forall k :: 2 <= k < 8 ==> !IsLineTerminator(id[k])
    ensures AddIdShape("22\n\n\n\n\n\nAB") && !UpdateIdShape("22\n\n\n\n\n\nAB")
  {
    var nl := "22\n\n\n\n\n\nAB";
    assert nl[2..8] == "\n\n\n\n\n\n";
    assert IsSpecial('\n');
    SpecialCountAtLeastTwo(nl[2..8]);
    assert IsSpecial(nl[2..8][0]) && IsSpecial(nl[2..8][1]);
  }

  /** An accepted address holds at least one separator. */
  lemma AddressHasSeparator(address: string)
    requires AddressShape(address)
    ensures '|' in address
  {
  }

  /**
   * Five separator-free fields, the country not empty, joined with '|' and
   * followed by any number of '|', form an accepted address exactly when the
   * state field is "Victoria" in any case. The leading field may be empty.
   */
  lemma AddressOfFields(fields: seq<string>, k: nat)
    requires |fields| == 5
    requires forall j :: 0 <= j < 5 ==> '|' !in fields[j]
    requires fields[4] != ""
    ensures AddressShape(Join(fields) + Bars(k)) <==> EqualsIgnoreCase(fields[3], "Victoria")
  {
    SplitOfJoin(fields, k);
  }

  /**
   * Every accepted address is of that form: its five split pieces joined,
   * followed by `k` separators, with a non-empty country and Victoria as state.
   */
  lemma AddressFields(address: string) returns (k: nat)
    requires AddressShape(address)
    ensures var fields := Split(address);
      && |fields| == 5
      && address == Join(fields) + Bars(k)
      && (forall j :: 0 <= j < 5 ==> '|' !in fields[j])
      && fields[4] != ""
      && EqualsIgnoreCase(fields[3], "Victoria")
  {
    k := SplitRebuild(address);
  }

  /** An address whose country field is empty is refused, whatever the other fields. */
  lemma EmptyCountryRejected(streetNo: string, street: string, city: string, state: string)
    requires '|' !in streetNo && '|' !in street && '|' !in city && '|' !in state
    ensures !AddressShape(Join([streetNo, street, city, state, ""]))
  {
    var fields := [streetNo, street, city, state, ""];
    var address := Join(fields);
    assert address == streetNo + "|" + Join(fields[1..]);
    PiecesOfJoin(fields);
    var parts := Split(address);
    assert parts == DropTrailingEmpty(fields);
    assert |parts| < 5;
  }

  /** An address whose street-number field is empty is accepted. */
  lemma EmptyStreetNumberAccepted(street: string, city: string, country: string)
    requires '|' !in street && '|' !in city && '|' !in country
    requires country != ""
    ensures AddressShape(Join(["", street, city, "Victoria", country]))
  {
    var fields := ["", street, city, "Victoria", country];
    AddressOfFields(fields, 0);
    assert Join(fields) + Bars(0) == Join(fields);
  }

  /**
   * The birthdate check looks at the shape only: a shape-valid text need not
   * be a date at all, and one that names a day past the end of its month is
   * read as that month's last day.
   */
  lemma BirthdateShapeIsNotCalendar()
    ensures BirthdateShape("00-13-2000") && ParseDate("00-13-2000") == None
    ensures BirthdateShape("31-02-2021") && ParseDate("31-02-2021") == Some(Date(2021, 2, 28))
  {
  }
}
