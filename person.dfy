/**
 * The person record store of Person.java: a list of lines `id|address|birthdate`
 * that `addPerson` appends to and `updatePersonalDetails` rewrites as a whole,
 * line by line, under three ordered business rules.
 */
module PersonRegistry {
  import opened JavaText
  import opened Dates
  import opened PersonFields

  /** The line `addPerson` writes, and the line an accepted update substitutes. */
  function RecordLine(id: string, address: string, birthdate: string): string {
    id + "|" + address + "|" + birthdate
  }

  /** The three checks of `addPerson`. */
  predicate AddAccepts(id: string, address: string, birthdate: string) {
    AddIdShape(id) && AddressShape(address) && BirthdateShape(birthdate)
  }

  /** The arguments of one `updatePersonalDetails` call. */
  datatype Request = Request(oldID: string, newID: string, address: string, birthdate: string)

  /** The three checks `updatePersonalDetails` runs on its new values. */
  predicate UpdateFieldsValid(req: Request) {
    UpdateIdShape(req.newID) && AddressShape(req.address) && BirthdateShape(req.birthdate)
  }

  /** Why an update is refused; the source prints a message for some and returns false for all. */
  datatype Reason =
    | InvalidField
    | RecordNotFound
    | IdLockedByEvenDigit
    | BirthdateChangeNotIsolated
    | MinorCannotChangeAddress

  datatype Outcome<T> = Ok(value: T) | Err(reason: Reason)

  /** What the update does with one stored line. */
  datatype Verdict = NotMatching | Rejected(reason: Reason) | KeptVerbatim | Replaced

  /** A stored line belongs to `oldID`: at least three pieces, the first one equal to it. */
  predicate MatchesOld(line: string, oldID: string) {
    var parts := Split(line);
    |parts| >= 3 && parts[0] == oldID
  }

  /** The first character of the ID is an even digit. */
  predicate EvenLeadingDigit(id: string)
    requires |id| > 0
  {
    IsDigit(id[0]) && DigitValue(id[0]) % 2 == 0
  }

  /**
   * The rules for a line of the old ID, in the source's order, given the
   * line's stored address and birthdate: the even-digit ID lock, then
   * birthdate isolation, then the under-18 address lock, where a stored
   * birthdate that does not parse keeps the line as it is.
   */
  function RuleVerdict(existingAddress: string, existingBirthdate: string, req: Request, today: Date): Verdict
    requires |req.oldID| > 0
  {
    var birthdateChanged := existingBirthdate != req.birthdate;
    var addressChanged := existingAddress != req.address;
    var idChanged := req.oldID != req.newID;
    if EvenLeadingDigit(req.oldID) && idChanged then Rejected(IdLockedByEvenDigit)
    else if birthdateChanged && (addressChanged || idChanged) then Rejected(BirthdateChangeNotIsolated)
    else if !addressChanged then Replaced
    else
      match ParseDate(existingBirthdate)
      case None => KeptVerbatim
      case Some(born) =>
        if AgeInYears(born, today) < 18 then Rejected(MinorCannotChangeAddress) else Replaced
  }

  /**
   * What the update does with one stored line. The "existing" address and
   * birthdate of a matching line are its pieces 1 and 2.
   */
  function LineVerdict(line: string, req: Request, today: Date): Verdict
    requires |req.oldID| > 0
  {
    if !MatchesOld(line, req.oldID) then NotMatching
    else
      var parts := Split(line);
      RuleVerdict(parts[1], parts[2], req, today)
  }

  /** The line an update writes in place of `line`, when it writes at all. */
  function LineAfter(line: string, req: Request, today: Date): string
    requires |req.oldID| > 0
  {
    if LineVerdict(line, req, today) == Replaced
    then RecordLine(req.newID, req.address, req.birthdate)
    else line
  }

  /** The rewritten lines so far and whether any line matched. */
  datatype Scan = Scan(lines: seq<string>, found: bool)

  /** The scan over the stored lines, front to back, stopping at the first rejection. */
  function ScanLines(lines: seq<string>, req: Request, today: Date): Outcome<Scan>
    requires |req.oldID| > 0
  {
    if lines == [] then Ok(Scan([], false))
    else
      var verdict := LineVerdict(lines[0], req, today);
      if verdict.Rejected? then Err(verdict.reason)
      else
        match ScanLines(lines[1..], req, today)
        case Err(why) => Err(why)
        case Ok(rest) =>
          Ok(Scan([LineAfter(lines[0], req, today)] + rest.lines, rest.found || verdict != NotMatching))
  }

  /** `updatePersonalDetails` as a function of the store: the new store, or why it stays. */
  function Update(store: seq<string>, req: Request, today: Date): Outcome<seq<string>>
    requires |req.oldID| > 0
  {
    if !UpdateFieldsValid(req) then Err(InvalidField)
    else
      match ScanLines(store, req, today)
      case Err(why) => Err(why)
      case Ok(scan) => if scan.found then Ok(scan.lines) else Err(RecordNotFound)
  }

  /** The scan succeeds exactly when no line is rejected. */
  lemma {:induction false} ScanOkIff(lines: seq<string>, req: Request, today: Date)
    requires |req.oldID| > 0
    ensures ScanLines(lines, req, today).Ok? <==>
      forall k :: 0 <= k < |lines| ==> !LineVerdict(lines[k], req, today).Rejected?
    decreases |lines|
  {
    if lines != [] {
      var rest := lines[1..];
      ScanOkIff(rest, req, today);
      if !ScanLines(lines, req, today).Ok? && !LineVerdict(lines[0], req, today).Rejected? {
        var k :| 0 <= k < |rest| && LineVerdict(rest[k], req, today).Rejected?;
        assert lines[k + 1] == rest[k];
      }
      if ScanLines(lines, req, today).Ok? {
        forall k | 0 <= k < |lines|
          ensures !LineVerdict(lines[k], req, today).Rejected?
        {
          if k > 0 {
            assert lines[k] == rest[k - 1];
          }
        }
      }
    }
  }

  /**
   * An accepted scan rewrites each line in place and reports whether some
   * line matched.
   */
  lemma {:induction false} ScanResult(lines: seq<string>, req: Request, today: Date)
    requires |req.oldID| > 0
    requires ScanLines(lines, req, today).Ok?
    ensures var scan := ScanLines(lines, req, today).value;
      && |scan.lines| == |lines|
      && (forall k :: 0 <= k < |lines| ==> scan.lines[k] == LineAfter(lines[k], req, today))
      && (scan.found <==> exists k :: 0 <= k < |lines| && MatchesOld(lines[k], req.oldID))
    decreases |lines|
  {
    if lines != [] {
      var rest := lines[1..];
      var verdict := LineVerdict(lines[0], req, today);
      var tail := ScanLines(rest, req, today).value;
      ScanResult(rest, req, today);
      var scan := ScanLines(lines, req, today).value;
      assert scan.lines == [LineAfter(lines[0], req, today)] + tail.lines;
      assert scan.found == (tail.found || verdict != NotMatching);
      VerdictOfMatching(lines[0], req, today);
      forall k | 1 <= k < |lines|
        ensures scan.lines[k] == LineAfter(lines[k], req, today)
        ensures MatchesOld(lines[k], req.oldID) == MatchesOld(rest[k - 1], req.oldID)
      {
        assert lines[k] == rest[k - 1];
      }
    }
  }

  /** A refused scan is refused for the reason of its first rejected line. */
  lemma {:induction false} ScanFirstRejection(lines: seq<string>, req: Request, today: Date)
    requires |req.oldID| > 0
    requires ScanLines(lines, req, today).Err?
    ensures exists k :: (0 <= k < |lines|
      && LineVerdict(lines[k], req, today) == Rejected(ScanLines(lines, req, today).reason)
      && forall j :: 0 <= j < k ==> !LineVerdict(lines[j], req, today).Rejected?)
    decreases |lines|
  {
    var why := ScanLines(lines, req, today).reason;
    if LineVerdict(lines[0], req, today).Rejected? {
      assert LineVerdict(lines[0], req, today) == Rejected(why);
    } else {
      var rest := lines[1..];
      ScanFirstRejection(rest, req, today);
      var k :| 0 <= k < |rest|
        && LineVerdict(rest[k], req, today) == Rejected(why)
        && forall j :: 0 <= j < k ==> !LineVerdict(rest[j], req, today).Rejected?;
      assert lines[k + 1] == rest[k];
      forall j | 0 <= j < k + 1
        ensures !LineVerdict(lines[j], req, today).Rejected?
      {
        if j > 0 {
          assert lines[j] == rest[j - 1];
        }
      }
    }
  }

  /** The scan outcome after one more line, given the outcome before it. */
  function ScanStep(before: Outcome<Scan>, line: string, req: Request, today: Date): Outcome<Scan>
    requires |req.oldID| > 0
  {
    match before
    case Err(why) => Err(why)
    case Ok(scan) =>
      var verdict := LineVerdict(line, req, today);
      if verdict.Rejected? then Err(verdict.reason)
      else Ok(Scan(scan.lines + [LineAfter(line, req, today)], scan.found || verdict != NotMatching))
  }

  /** Scanning one more line at the end is one more step of the scan. */
  lemma {:induction false} ScanSnoc(lines: seq<string>, line: string, req: Request, today: Date)
    requires |req.oldID| > 0
    ensures ScanLines(lines + [line], req, today) == ScanStep(ScanLines(lines, req, today), line, req, today)
    decreases |lines|
  {
    if lines == [] {
      assert [] + [line] == [line];
      assert [line][1..] == [];
      var after := LineAfter(line, req, today);
      assert [after] + [] == [] + [after];
    } else {
      assert (lines + [line])[0] == lines[0];
      assert (lines + [line])[1..] == lines[1..] + [line];
      ScanSnoc(lines[1..], line, req, today);
      if ScanLines(lines, req, today).Ok? && ScanLines(lines + [line], req, today).Ok? {
        assert ScanLines(lines + [line], req, today).value.lines ==
          ScanLines(lines, req, today).value.lines + [LineAfter(line, req, today)];
      }
    }
  }

  /** Once a prefix of the store is refused, the whole scan is. */
  lemma {:induction false} ScanErrPersists(lines: seq<string>, more: seq<string>, req: Request, today: Date)
    requires |req.oldID| > 0
    requires ScanLines(lines, req, today).Err?
    ensures ScanLines(lines + more, req, today).Err?
    decreases |lines|
  {
    assert (lines + more)[0] == lines[0];
    assert (lines + more)[1..] == lines[1..] + more;
    if !LineVerdict(lines[0], req, today).Rejected? {
      ScanErrPersists(lines[1..], more, req, today);
    }
  }

  /** A rejected line right after a completed prefix refuses the whole scan. */
  lemma {:induction false} ScanRefusedAt(lines: seq<string>, i: nat, req: Request, today: Date)
    requires |req.oldID| > 0
    requires i < |lines| && ScanLines(lines[..i], req, today).Ok?
    requires LineVerdict(lines[i], req, today).Rejected?
    ensures ScanLines(lines, req, today).Err?
    decreases i
  {
    if i > 0 {
      assert lines[..i][0] == lines[0];
      assert lines[..i][1..] == lines[1..][..i - 1];
      ScanRefusedAt(lines[1..], i - 1, req, today);
    }
  }

  /** A rejected line right after a completed prefix refuses the whole update. */
  lemma StepRefused(store: seq<string>, i: nat, req: Request, today: Date)
    requires |req.oldID| > 0 && UpdateFieldsValid(req)
    requires i < |store| && ScanLines(store[..i], req, today).Ok?
    requires LineVerdict(store[i], req, today).Rejected?
    ensures Update(store, req, today).Err?
  {
    ScanRefusedAt(store, i, req, today);
  }

  /** A replaced line extends a completed prefix by the new record, and marks the old ID found. */
  lemma StepReplaced(store: seq<string>, i: nat, req: Request, today: Date, rewritten: seq<string>, found: bool)
    requires |req.oldID| > 0
    requires i < |store| && ScanLines(store[..i], req, today) == Ok(Scan(rewritten, found))
    requires LineVerdict(store[i], req, today) == Replaced
    ensures ScanLines(store[..i + 1], req, today) ==
      Ok(Scan(rewritten + [RecordLine(req.newID, req.address, req.birthdate)], true))
  {
    assert store[..i + 1] == store[..i] + [store[i]];
    ScanSnoc(store[..i], store[i], req, today);
  }

  /**
   * A line kept as it is (not of the old ID, or of the old ID with an
   * unreadable birthdate) extends a completed prefix by itself.
   */
  lemma StepKept(store: seq<string>, i: nat, req: Request, today: Date, rewritten: seq<string>, found: bool)
    requires |req.oldID| > 0
    requires i < |store| && ScanLines(store[..i], req, today) == Ok(Scan(rewritten, found))
    requires LineVerdict(store[i], req, today) in {NotMatching, KeptVerbatim}
    ensures ScanLines(store[..i + 1], req, today) ==
      Ok(Scan(rewritten + [store[i]], found || LineVerdict(store[i], req, today) == KeptVerbatim))
  {
    assert store[..i + 1] == store[..i] + [store[i]];
    ScanSnoc(store[..i], store[i], req, today);
  }

  /**
   * An update is accepted exactly when the new fields pass their checks,
   * some line matches the old ID and no line is rejected. The accepted store
   * has the same length; each line not replaced (not matching, or kept
   * because its stored birthdate does not parse) stays where it was, and
   * each replaced one becomes `newID|address|birthdate`.
   */
  lemma UpdateAccepted(store: seq<string>, req: Request, today: Date)
    requires |req.oldID| > 0
    ensures Update(store, req, today).Ok? <==>
      && UpdateFieldsValid(req)
      && (exists k :: 0 <= k < |store| && MatchesOld(store[k], req.oldID))
      && (forall k :: 0 <= k < |store| ==> !LineVerdict(store[k], req, today).Rejected?)
    ensures Update(store, req, today).Ok? ==>
      var out := Update(store, req, today).value;
      && |out| == |store|
      && (forall k :: 0 <= k < |store| && LineVerdict(store[k], req, today) != Replaced ==> out[k] == store[k])
      && (forall k :: 0 <= k < |store| && LineVerdict(store[k], req, today) == Replaced ==>
            out[k] == RecordLine(req.newID, req.address, req.birthdate))
  {
    ScanOkIff(store, req, today);
    if ScanLines(store, req, today).Ok? {
      ScanResult(store, req, today);
    }
  }

  /**
   * A refused update gives the first reason that applies: a bad field, then
   * the first rejected line in store order, then no line for the old ID.
   */
  lemma UpdateRefused(store: seq<string>, req: Request, today: Date)
    requires |req.oldID| > 0
    requires Update(store, req, today).Err?
    ensures var why := Update(store, req, today).reason;
      || (why == InvalidField && !UpdateFieldsValid(req))
      || (why == RecordNotFound && UpdateFieldsValid(req)
          && forall k :: 0 <= k < |store| ==> !MatchesOld(store[k], req.oldID))
      || (UpdateFieldsValid(req) && exists k :: (0 <= k < |store|
          && LineVerdict(store[k], req, today) == Rejected(why)
          && forall j :: 0 <= j < k ==> !LineVerdict(store[j], req, today).Rejected?))
  {
    if UpdateFieldsValid(req) {
      if ScanLines(store, req, today).Err? {
        ScanFirstRejection(store, req, today);
      } else {
        ScanResult(store, req, today);
      }
    }
  }

  /** A verdict other than `NotMatching` is given only to lines of the old ID. */
  lemma VerdictOfMatching(line: string, req: Request, today: Date)
    requires |req.oldID| > 0
    ensures LineVerdict(line, req, today) == NotMatching <==> !MatchesOld(line, req.oldID)
  {
  }

  /**
   * Rule 1, checked before the others: when the old ID starts with an even
   * digit, a call that would change the ID is refused for that reason as soon
   * as the old ID has a line, whatever the address and birthdate.
   */
  lemma EvenDigitLocksId(store: seq<string>, req: Request, today: Date, k: nat)
    requires |req.oldID| > 0
    requires UpdateFieldsValid(req)
    requires k < |store| && MatchesOld(store[k], req.oldID)
    requires EvenLeadingDigit(req.oldID) && req.newID != req.oldID
    ensures Update(store, req, today) == Err(IdLockedByEvenDigit)
  {
    assert LineVerdict(store[k], req, today).Rejected?;
    ScanOkIff(store, req, today);
    ScanFirstRejection(store, req, today);
    var why := ScanLines(store, req, today).reason;
    var j :| 0 <= j < |store| && LineVerdict(store[j], req, today) == Rejected(why);
    VerdictOfMatching(store[j], req, today);
    assert why == IdLockedByEvenDigit;
  }

  /**
   * Rule 2: a matching line whose stored birthdate differs from the new one,
   * while its stored address differs or the ID changes, refuses the call.
   */
  lemma BirthdateChangeIsolated(store: seq<string>, req: Request, today: Date, k: nat)
    requires |req.oldID| > 0
    requires k < |store| && MatchesOld(store[k], req.oldID)
    requires Split(store[k])[2] != req.birthdate
    requires Split(store[k])[1] != req.address || req.oldID != req.newID
    ensures Update(store, req, today).Err?
  {
    assert LineVerdict(store[k], req, today).Rejected?;
    UpdateAccepted(store, req, today);
  }

  /**
   * Rule 3: a matching line whose stored address differs and whose stored
   * birthdate parses to a date less than 18 whole years before `today`
   * (a future date included) refuses the call.
   */
  lemma MinorAddressLocked(store: seq<string>, req: Request, today: Date, k: nat, born: Date)
    requires |req.oldID| > 0
    requires k < |store| && MatchesOld(store[k], req.oldID)
    requires Split(store[k])[1] != req.address
    requires ParseDate(Split(store[k])[2]) == Some(born)
    requires ValidDate(today)
    requires !NotAfter(YearsLater(born, 18), today)
    ensures Update(store, req, today).Err?
  {
    AgeAtLeast(born, today, 18);
    assert LineVerdict(store[k], req, today).Rejected?;
    UpdateAccepted(store, req, today);
  }

  /** A valid request whose old ID has no line in the store is refused as not found. */
  lemma NotFoundRefused(store: seq<string>, req: Request, today: Date)
    requires |req.oldID| > 0
    requires UpdateFieldsValid(req)
    requires forall k :: 0 <= k < |store| ==> !MatchesOld(store[k], req.oldID)
    ensures Update(store, req, today) == Err(RecordNotFound)
  {
    forall k | 0 <= k < |store|
      ensures !LineVerdict(store[k], req, today).Rejected?
    {
      VerdictOfMatching(store[k], req, today);
    }
    UpdateAccepted(store, req, today);
    UpdateRefused(store, req, today);
  }

  /**
   * An accepted address always holds a '|', a split piece never does: so
   * the "existing address" (piece 1 of a stored line) never equals the new
   * address, and every matching line goes through the age rule.
   */
  lemma NewAddressAlwaysDiffers(line: string, address: string)
    requires AddressShape(address)
    requires |Split(line)| >= 2
    ensures Split(line)[1] != address
  {
    AddressHasSeparator(address);
    SplitBarFree(line);
  }

  /**
   * Consequently an update is accepted only when every matching line already
   * holds the new birthdate text as its piece 2, and each replaced line had a
   * stored birthdate at least 18 whole years before `today`.
   */
  lemma AcceptedUpdateNeedsSameBirthdate(store: seq<string>, req: Request, today: Date)
    requires |req.oldID| > 0
    requires ValidDate(today)
    requires Update(store, req, today).Ok?
    ensures forall k :: 0 <= k < |store| && MatchesOld(store[k], req.oldID) ==>
      Split(store[k])[2] == req.birthdate
    ensures forall k :: 0 <= k < |store| && LineVerdict(store[k], req, today) == Replaced ==>
      && ParseDate(Split(store[k])[2]).Some?
      && NotAfter(YearsLater(ParseDate(Split(store[k])[2]).value, 18), today)
  {
    UpdateAccepted(store, req, today);
    forall k | 0 <= k < |store| && MatchesOld(store[k], req.oldID)
      ensures Split(store[k])[2] == req.birthdate
      ensures LineVerdict(store[k], req, today) == Replaced ==>
        && ParseDate(Split(store[k])[2]).Some?
        && NotAfter(YearsLater(ParseDate(Split(store[k])[2]).value, 18), today)
    {
      NewAddressAlwaysDiffers(store[k], req.address);
      var parsed := ParseDate(Split(store[k])[2]);
      if parsed.Some? {
        AgeAtLeast(parsed.value, today, 18);
      }
    }
  }

  /**
   * The line `addPerson` writes, for an ID without '|', splits into the ID,
   * the five address fields, any empty fields the address ended with, and the
   * birthdate. So piece 1 is the street number and piece 2 the street name,
   * and the line matches its own ID.
   */
  lemma StoredPieces(id: string, address: string, birthdate: string) returns (k: nat)
    requires AddAccepts(id, address, birthdate)
    requires '|' !in id
    ensures Split(RecordLine(id, address, birthdate)) ==
      [id] + Split(address) + Empties(k) + [birthdate]
    ensures Split(RecordLine(id, address, birthdate))[1] == Split(address)[0]
    ensures Split(RecordLine(id, address, birthdate))[2] == Split(address)[1]
    ensures MatchesOld(RecordLine(id, address, birthdate), id)
  {
    k := AddressFields(address);
    var fields := Split(address);
    var ps := [id] + fields + Empties(k) + [birthdate];
    JoinEmpties(fields, k);
    JoinSnoc(fields + Empties(k), birthdate);
    JoinAppend([id], fields + Empties(k) + [birthdate]);
    assert ps == [id] + (fields + Empties(k) + [birthdate]);
    assert Join(ps) == RecordLine(id, address, birthdate);
    assert forall j :: 0 <= j < |ps| ==> '|' !in ps[j];
    SplitOfJoin(ps, 0);
    assert Join(ps) + Bars(0) == Join(ps);
  }

  /**
   * The line an accepted update writes, for a new ID without '|', has the
   * street number of the new address as piece 1 and its street name as
   * piece 2, not the new birthdate, and it matches the new ID.
   */
  lemma ReplacementPieces(req: Request)
    requires UpdateFieldsValid(req)
    requires '|' !in req.newID
    ensures var parts := Split(RecordLine(req.newID, req.address, req.birthdate));
      && MatchesOld(RecordLine(req.newID, req.address, req.birthdate), req.newID)
      && parts[1] == Split(req.address)[0]
      && parts[2] == Split(req.address)[1]
  {
    UpdateIdShapeNarrower(req.newID);
    var _ := StoredPieces(req.newID, req.address, req.birthdate);
  }

  /**
   * An update of a record that `addPerson` wrote (ID without '|') is refused
   * unless the record's street name is exactly the new birthdate text: the
   * stored "birthdate" the rules compare is the street name, and the stored
   * "address" is the street number, which never equals a valid new address.
   */
  lemma AddedRecordUpdateRefused(store: seq<string>, k: nat, id: string, address: string, birthdate: string,
                                 req: Request, today: Date)
    requires AddAccepts(id, address, birthdate) && '|' !in id
    requires k < |store| && store[k] == RecordLine(id, address, birthdate)
    requires req.oldID == id && UpdateFieldsValid(req)
    requires Split(address)[1] != req.birthdate
    ensures Update(store, req, today).Err?
  {
    var _ := StoredPieces(id, address, birthdate);
    NewAddressAlwaysDiffers(store[k], req.address);
    BirthdateChangeIsolated(store, req, today, k);
  }

  /** The store file, one entry per line. */
  class Person {
    var lines: seq<string>

    constructor (initial: seq<string>)
      ensures lines == initial
    {
      lines := initial;
    }

    /**
     * Checks the three fields and, when all pass, appends one line
     * `id|address|birthdate`; otherwise the store is left alone.
     */
    method AddPerson(id: string, address: string, birthdate: string) returns (ok: bool)
      modifies this
      ensures ok <==> AddAccepts(id, address, birthdate)
      ensures lines == if ok then old(lines) + [RecordLine(id, address, birthdate)] else old(lines)
    {
      if !AddIdShape(id) {
        return false;
      }
      if !AddressShape(address) {
        return false;
      }
      if !BirthdateShape(birthdate) {
        return false;
      }
      lines := lines + [RecordLine(id, address, birthdate)];
      ok := true;
    }

    /**
     * Checks the new fields, then rewrites the store line by line, refusing
     * the whole call at the first rejected line; the store changes only when
     * every line passes and some line matched the old ID.
     */
    method UpdatePersonalDetails(oldID: string, newID: string, address: string, birthdate: string, today: Date)
      returns (ok: bool)
      requires |oldID| > 0
      modifies this
      ensures var outcome := Update(old(lines), Request(oldID, newID, address, birthdate), today);
        && ok == outcome.Ok?
        && lines == if outcome.Ok? then outcome.value else old(lines)
    {
      var req := Request(oldID, newID, address, birthdate);
      if !UpdateIdShape(newID) || !AddressShape(address) || !BirthdateShape(birthdate) {
        return false;
      }
      var store := lines;
      var rewritten: seq<string> := [];
      var found := false;
      var i := 0;
      while i < |store|
        invariant 0 <= i <= |store| && lines == store
        invariant ScanLines(store[..i], req, today) == Ok(Scan(rewritten, found))
      {
        var line := store[i];
        ghost var verdict := LineVerdict(line, req, today);
        var parts := Split(line);
        if |parts| >= 3 && parts[0] == oldID {
          var existingAddress := parts[1];
          var existingBirthdate := parts[2];
          var birthdateChanged := existingBirthdate != birthdate;
          var addressChanged := existingAddress != address;
          var idChanged := oldID != newID;
          assert verdict == RuleVerdict(existingAddress, existingBirthdate, req, today);
          if IsDigit(oldID[0]) && DigitValue(oldID[0]) % 2 == 0 && idChanged {
            StepRefused(store, i, req, today);
            return false;
          }
          if birthdateChanged && (addressChanged || idChanged) {
            StepRefused(store, i, req, today);
            return false;
          }
          if addressChanged {
            var born := ParseDate(existingBirthdate);
            if born.None? {
              assert verdict == KeptVerbatim;
              StepKept(store, i, req, today, rewritten, found);
              rewritten := rewritten + [line];
              found := true;
              i := i + 1;
              continue;
            }
            if AgeInYears(born.value, today) < 18 {
              StepRefused(store, i, req, today);
              return false;
            }
          }
          assert verdict == Replaced;
          StepReplaced(store, i, req, today, rewritten, found);
          rewritten := rewritten + [RecordLine(newID, address, birthdate)];
          found := true;
        } else {
          assert verdict == NotMatching;
          StepKept(store, i, req, today, rewritten, found);
          rewritten := rewritten + [line];
        }
        i := i + 1;
      }
      assert store[..i] == store;
      if !found {
        return false;
      }
      lines := rewritten;
      ok := true;
    }
  }
}
