/**
 * `validate_email`: the staged check with early return. The result dict
 * gains one key per stage reached, in a fixed order, and the first stage
 * whose check returns false ends the run.
 */
module Pipeline {
  import opened Wrappers
  import opened PyStrings
  import opened EmailSyntax
  import opened ValidationResult
  import opened MailOracles

  /** The number of checks: syntax, domain, SMTP, authentication, engagement, mailbox. */
  const StageCount: nat := 6

  /** The order of all keys a result can hold. */
  const KeyOrder: seq<Key> :=
    [Email, SyntacticValid, DomainValid, SmtpDeliverable, Authenticated, UserEngaged, MailboxAvailable, Valid]

  /** The flag stage `n` writes (stage 0 is the syntax check). */
  function StageKey(n: nat): (k: Key)
    requires n < StageCount
    ensures Rank(k) == n + 1
  {
    KeyOrder[n + 1]
  }

  /** What `validate_email` does: return the dict, or let an exception escape. */
  datatype Outcome = Returned(result: Dict) | Raised(error: Error)

  /**
   * The verdict of each of the six stages, as the stage would compute it
   * if reached. When the address has no '@', computing the domain raises
   * IndexError, and every stage past the syntax check that needs the
   * domain is given that exception.
   */
  function StageChecks(email: string, net: Network): (cs: seq<Checked>)
    ensures |cs| == StageCount
    ensures cs[0] == Returns(IsSyntacticValid(email))
  {
    var syntax := Returns(IsSyntacticValid(email));
    match DomainPart(email)
    case Failure(e) => [syntax, Raises(e), Raises(e), Raises(e), Returns(CheckUserEngagement(email)), Raises(e)]
    case Success(domain) =>
      [ syntax,
        IsDomainValid(net, domain),
        Returns(CheckSmtpDeliverability(net, domain, email)),
        CheckAuthenticationAntiSpam(net, email),
        Returns(CheckUserEngagement(email)),
        CheckMailboxAvailability(net, email) ]
  }

  /** The position of the first check that did not return true, or `|cs|` when all did. */
  function FirstFailure(cs: seq<Checked>): (n: nat)
    ensures n <= |cs|
    ensures forall i :: 0 <= i < n ==> cs[i] == Returns(true)
    ensures n < |cs| ==> cs[n] != Returns(true)
  {
    if cs == [] || cs[0] != Returns(true) then 0 else 1 + FirstFailure(cs[1..])
  }

  /** The dict after the email and the true flags of the first `n` stages were written. */
  function Reached(email: string, n: nat): (d: Dict)
    requires n <= StageCount
    ensures |d| == n + 1 && d[0] == Entry(Email, Str(email))
    ensures forall i :: 1 <= i <= n ==> d[i] == Entry(StageKey(i - 1), Flag(true))
  {
    if n == 0 then [Entry(Email, Str(email))]
    else Reached(email, n - 1) + [Entry(StageKey(n - 1), Flag(true))]
  }

  /**
   * The reference for `validate_email`, given the verdicts of its stages:
   * the email, a true flag for every stage before the first one that did
   * not pass, and then either that stage's false flag, the exception it
   * raised, or, when every stage passed, `valid` set to true.
   */
  function Expected(email: string, cs: seq<Checked>): Outcome
    requires |cs| == StageCount
  {
    var n := FirstFailure(cs);
    if n == |cs| then Returned(Reached(email, n) + [Entry(Valid, Flag(true))])
    else if cs[n].Raises? then Raised(cs[n].error)
    else Returned(Reached(email, n) + [Entry(StageKey(n), Flag(false))])
  }

  /** What `validate_email(email)` returns against the network `net`. */
  function Validated(email: string, net: Network): Outcome
  {
    Expected(email, StageChecks(email, net))
  }

  /**
   * The shape every returned result has: entry `i` holds the key of rank
   * `i` (so the keys are a prefix of `KeyOrder`), at least up to
   * `syntactic_valid`; the email comes first, every flag but the last is
   * true, the last flag is false unless all eight keys are present, and
   * `valid`, when present, is true.
   */
  ghost predicate Staged(email: string, r: Dict)
  {
    && 2 <= |r| <= |KeyOrder|
    && (forall i :: 0 <= i < |r| ==> Rank(r[i].key) == i)
    && r[0] == Entry(Email, Str(email))
    && (forall i :: 1 <= i < |r| ==> r[i].value.Flag?)
    && (forall i :: 1 <= i < |r| - 1 ==> r[i].value == Flag(true))
    && (|r| == |KeyOrder| ==> r[|r| - 1].value == Flag(true))
    && (|r| < |KeyOrder| ==> r[|r| - 1].value == Flag(false))
  }

  /** `validate_email(email)` with the network `net`. */
  method ValidateEmail(email: string, net: Network) returns (out: Outcome)
    ensures out == Validated(email, net)
    ensures out.Returned? ==> Staged(email, out.result)
  {
    ghost var cs := StageChecks(email, net);
    ExpectedIsStaged(email, cs);
    var result: Dict := [];
    result := Assign(result, Email, Str(email));
    assert result == Reached(email, 0);
    var stop: bool;

    stop, out, result := RunStage(email, cs, result, 0, Returns(IsSyntacticValid(email)));
    if stop { return; }

    SplitWellDefined(email);
    var domain := DomainPart(email).value;
    StageChecksOnDomain(email, net, domain);

    stop, out, result := RunStage(email, cs, result, 1, IsDomainValid(net, domain));
    if stop { return; }

    stop, out, result := RunStage(email, cs, result, 2, Returns(CheckSmtpDeliverability(net, domain, email)));
    if stop { return; }

    stop, out, result := RunStage(email, cs, result, 3, CheckAuthenticationAntiSpam(net, email));
    if stop { return; }

    stop, out, result := RunStage(email, cs, result, 4, Returns(CheckUserEngagement(email)));
    if stop { return; }

    stop, out, result := RunStage(email, cs, result, 5, CheckMailboxAvailability(net, email));
    if stop { return; }

    AssignValidAppends(email);
    result := Assign(result, Valid, Flag(true));
    return Returned(result);
  }

  /**
   * One stage of `validate_email`: an exception from the check `c`
   * escapes before anything is written; otherwise the verdict is written
   * under the stage's key, and a false verdict ends the run with the
   * dict as it stands. `stop` says whether the run ends here, and `out`
   * is then the reference outcome.
   */
  method RunStage(email: string, ghost cs: seq<Checked>, result: Dict, n: nat, c: Checked)
    returns (stop: bool, out: Outcome, next: Dict)
    requires |cs| == StageCount && n < StageCount && cs[n] == c
    requires n <= FirstFailure(cs)
    requires result == Reached(email, n)
    ensures stop <==> c != Returns(true)
    ensures stop ==> out == Expected(email, cs)
    ensures !stop ==> next == Reached(email, n + 1) && n < FirstFailure(cs)
  {
    if c.Raises? {
      return true, Raised(c.error), result;
    }
    AssignAppends(email, n, Flag(c.b));
    next := Assign(result, StageKey(n), Flag(c.b));
    stop := !c.b;
    out := Returned(next);
  }

  /** The stage verdicts once the domain is known. */
  lemma StageChecksOnDomain(email: string, net: Network, domain: string)
    requires DomainPart(email) == Success(domain)
    ensures var cs := StageChecks(email, net);
      && cs[1] == IsDomainValid(net, domain)
      && cs[2] == Returns(CheckSmtpDeliverability(net, domain, email))
      && cs[3] == CheckAuthenticationAntiSpam(net, email)
      && cs[4] == Returns(CheckUserEngagement(email))
      && cs[5] == CheckMailboxAvailability(net, email)
  {
  }

  /** A key of rank above `n` is not yet in the dict reached by stage `n`. */
  lemma NotYetWritten(email: string, n: nat, k: Key)
    requires n <= StageCount && Rank(k) > n
    ensures k !in Keys(Reached(email, n))
  {
    var d := Reached(email, n);
    forall i | 0 <= i < |d| ensures Keys(d)[i] != k {
      assert Rank(d[i].key) <= n;
    }
  }

  /** Writing stage `n`'s flag into the dict reached so far appends it. */
  lemma AssignAppends(email: string, n: nat, v: Value)
    requires n < StageCount
    ensures Assign(Reached(email, n), StageKey(n), v) == Reached(email, n) + [Entry(StageKey(n), v)]
  {
    NotYetWritten(email, n, StageKey(n));
  }

  /** Writing `valid` after the last stage appends it. */
  lemma AssignValidAppends(email: string)
    ensures Assign(Reached(email, StageCount), Valid, Flag(true)) == Reached(email, StageCount) + [Entry(Valid, Flag(true))]
  {
    NotYetWritten(email, StageCount, Valid);
  }

  /** Every result the reference returns has the staged shape. */
  lemma ExpectedIsStaged(email: string, cs: seq<Checked>)
    requires |cs| == StageCount
    ensures Expected(email, cs).Returned? ==> Staged(email, Expected(email, cs).result)
  {
  }

  /** The key of rank `i` is the key at position `i` of `KeyOrder`. */
  lemma KeyOfRank(k: Key, i: nat)
    requires Rank(k) == i
    ensures i < |KeyOrder| && KeyOrder[i] == k
  {
  }

  /** Ranks in order mean the keys are a prefix of `KeyOrder`. */
  lemma StagedKeysArePrefix(email: string, r: Dict)
    requires Staged(email, r)
    ensures Keys(r) == KeyOrder[..|r|]
  {
    var ks := Keys(r);
    forall i | 0 <= i < |r| ensures ks[i] == KeyOrder[i] {
      KeyOfRank(r[i].key, i);
    }
  }

  /**
   * What a staged result says about `valid`: it is present exactly when
   * all eight keys are, it is never false, and so it is true exactly when
   * every stage wrote its flag.
   */
  lemma StagedVerdict(email: string, r: Dict)
    requires Staged(email, r)
    ensures Valid in Keys(r) <==> |r| == |KeyOrder|
    ensures Lookup(r, Valid) != Some(Flag(false))
    ensures Lookup(r, Valid) == Some(Flag(true)) <==> |r| == |KeyOrder|
  {
    StagedKeysArePrefix(email, r);
    if Valid in Keys(r) {
      var i :| 0 <= i < |r| && Keys(r)[i] == Valid;
      assert KeyOrder[i] == Valid;
    }
    if |r| == |KeyOrder| {
      assert Keys(r)[7] == Valid;
    }
    if Lookup(r, Valid).Some? {
      var j :| 0 <= j < |r| && r[j] == Entry(Valid, Lookup(r, Valid).value);
      assert Rank(r[j].key) == 7;
    }
  }

  /** In a staged result `valid` is true exactly when no stage flag is false. */
  lemma ValidIffNoFalseFlag(email: string, r: Dict)
    requires Staged(email, r)
    ensures Lookup(r, Valid) == Some(Flag(true)) <==> forall i :: 1 <= i < |r| ==> r[i].value == Flag(true)
  {
    StagedVerdict(email, r);
  }

  /** A syntax failure ends the run with the email and `syntactic_valid` false, and nothing else does. */
  lemma SyntaxFailureShape(email: string, net: Network)
    ensures !IsSyntacticValid(email) <==>
      Validated(email, net) == Returned([Entry(Email, Str(email)), Entry(SyntacticValid, Flag(false))])
  {
    var cs := StageChecks(email, net);
    if IsSyntacticValid(email) {
      assert 1 <= FirstFailure(cs);
      var out := Validated(email, net);
      assert out.Returned? ==> |out.result| >= 3;
    }
  }

  /** The IndexError of `email.split('@')[1]` never escapes: without an '@' the syntax check fails first. */
  lemma NeverIndexError(email: string, net: Network)
    ensures Validated(email, net) != Raised(IndexError)
  {
    if '@' !in email {
      RejectsWithoutAt(email);
    }
  }

  /**
   * For a well-formed address, what the run comes to, decided by the MX
   * answer for its domain and the probe of the first exchange: a resolver
   * exception escapes; `NoAnswer` or `NXDOMAIN` stops at `domain_valid`;
   * a failed probe stops at `smtp_deliverable`; a passed probe passes
   * every later stage and sets `valid`.
   */
  lemma OutcomeByNetwork(email: string, net: Network, domain: string)
    requires IsSyntacticValid(email) && DomainPart(email) == Success(domain)
    ensures var answer := net.resolveMx(domain);
      && (answer.ResolverFailure? ==> Validated(email, net) == Raised(ResolverError(answer.reason)))
      && (answer == NoAnswer || answer == NxDomain ==>
            Validated(email, net) == Returned([Entry(Email, Str(email)), Entry(SyntacticValid, Flag(true)),
                                               Entry(DomainValid, Flag(false))]))
      && (answer.MxAnswer? && !CheckSmtpDeliverability(net, domain, email) ==>
            Validated(email, net) == Returned([Entry(Email, Str(email)), Entry(SyntacticValid, Flag(true)),
                                               Entry(DomainValid, Flag(true)), Entry(SmtpDeliverable, Flag(false))]))
      && (answer.MxAnswer? && CheckSmtpDeliverability(net, domain, email) ==>
            Validated(email, net) == Returned(Reached(email, StageCount) + [Entry(Valid, Flag(true))]))
  {
    var cs := StageChecks(email, net);
    StageChecksOnDomain(email, net, domain);
    PlaceholdersRepeatEarlierChecks(net, email, domain);
    var answer := net.resolveMx(domain);
    if answer.ResolverFailure? {
      assert FirstFailure(cs) == 1;
    } else if answer == NoAnswer || answer == NxDomain {
      assert FirstFailure(cs) == 1;
      assert Reached(email, 1) == [Entry(Email, Str(email)), Entry(SyntacticValid, Flag(true))];
    } else if !CheckSmtpDeliverability(net, domain, email) {
      assert FirstFailure(cs) == 2;
      assert Reached(email, 2) == [Entry(Email, Str(email)), Entry(SyntacticValid, Flag(true)),
                                   Entry(DomainValid, Flag(true))];
    } else {
      assert FirstFailure(cs) == StageCount;
    }
  }

  /** Only the domain check raises: a run raises exactly when the MX query for a well-formed address fails with another resolver exception. */
  lemma RaisesOnlyOnResolverFailure(email: string, net: Network)
    ensures Validated(email, net).Raised? <==>
      && IsSyntacticValid(email)
      && DomainPart(email).Success?
      && net.resolveMx(DomainPart(email).value).ResolverFailure?
  {
    SyntaxFailureShape(email, net);
    if IsSyntacticValid(email) {
      SplitWellDefined(email);
      OutcomeByNetwork(email, net, DomainPart(email).value);
    }
  }

  /**
   * With repeated queries answered alike, the later stages never fail
   * first: a returned result holds 2, 3, 4 or all 8 entries, and
   * `user_engaged` is never false.
   */
  lemma ReturnedLengths(email: string, net: Network)
    requires Validated(email, net).Returned?
    ensures var r := Validated(email, net).result;
      (|r| == 2 || |r| == 3 || |r| == 4 || |r| == 8) && Lookup(r, UserEngaged) != Some(Flag(false))
  {
    SyntaxFailureShape(email, net);
    if IsSyntacticValid(email) {
      SplitWellDefined(email);
      OutcomeByNetwork(email, net, DomainPart(email).value);
    }
    var r := Validated(email, net).result;
    ExpectedIsStaged(email, StageChecks(email, net));
    if Lookup(r, UserEngaged).Some? {
      var i :| 0 <= i < |r| && r[i] == Entry(UserEngaged, Lookup(r, UserEngaged).value);
      assert Rank(r[i].key) == 5;
    }
  }

  /**
   * `valid` is true only when the first MX record's exchange accepted the
   * recipient with reply 250 and the session closed cleanly, for a
   * syntactically valid address.
   */
  lemma ValidMeansDeliverable(email: string, net: Network)
    requires Validated(email, net).Returned?
    requires Lookup(Validated(email, net).result, Valid) == Some(Flag(true))
    ensures IsSyntacticValid(email) && DomainPart(email).Success?
    ensures var answer := net.resolveMx(DomainPart(email).value);
      && answer.MxAnswer? && |answer.records| > 0
      && net.smtpSession(answer.records[0].exchange, email) == SessionCompleted(RecipientOk, true)
  {
    var r := Validated(email, net).result;
    ExpectedIsStaged(email, StageChecks(email, net));
    StagedVerdict(email, r);
    SyntaxFailureShape(email, net);
    SplitWellDefined(email);
    var domain := DomainPart(email).value;
    OutcomeByNetwork(email, net, domain);
    DeliverableIffFirstExchangeSays250(net, domain, email);
  }
}
