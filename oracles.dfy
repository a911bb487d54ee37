/**
 * The checks that reach the network, with the network replaced by an
 * oracle: `is_domain_valid`, `check_smtp_deliverability` and the three
 * placeholder checks built on them.
 */
module MailOracles {
  import opened Wrappers
  import opened PyStrings

  /** One MX record: its preference and the exchange host it names. */
  datatype MxRecord = MxRecord(preference: int, exchange: string)

  /**
   * What `dns.resolver.resolve(domain, 'MX')` does: return the records in
   * the resolver's order, raise `NoAnswer`, raise `NXDOMAIN`, or raise some
   * other resolver exception (timeout, no nameservers, ...).
   */
  datatype DnsAnswer =
    | MxAnswer(records: seq<MxRecord>)
    | NoAnswer
    | NxDomain
    | ResolverFailure(reason: string)

  /**
   * One `with smtplib.SMTP(host) as server:` block with HELO, `MAIL FROM`
   * and `RCPT TO`: either an exception escapes from connecting, HELO, MAIL
   * or RCPT, or the RCPT reply code comes back and leaving the block
   * (which sends QUIT) either completes or raises.
   */
  datatype SmtpSession =
    | SessionFailed
    | SessionCompleted(rcptCode: int, closedCleanly: bool)

  /**
   * The network as seen from one process: the MX answer for each domain
   * and the session outcome for each (mail server, recipient) pair. The
   * oracles are functions, so repeating a query repeats its answer.
   */
  datatype Network = Network(
    resolveMx: string -> DnsAnswer,
    smtpSession: (string, string) -> SmtpSession)

  /** The exceptions that can escape from a check. */
  datatype Error = ResolverError(reason: string) | IndexError

  /** What calling a boolean check does: return a value or raise. */
  datatype Checked = Returns(b: bool) | Raises(error: Error)

  /** The RCPT reply code that counts as deliverable. */
  const RecipientOk: int := 250

  /**
   * `is_domain_valid(domain)`: true when MX records come back, false only
   * for `NoAnswer` and `NXDOMAIN`; every other resolver exception is not
   * caught and propagates.
   */
  function IsDomainValid(net: Network, domain: string): (c: Checked)
    ensures c == Returns(true) <==> net.resolveMx(domain).MxAnswer?
    ensures c == Returns(false) <==> net.resolveMx(domain) == NoAnswer || net.resolveMx(domain) == NxDomain
    ensures c.Raises? <==> net.resolveMx(domain).ResolverFailure?
    ensures c.Raises? ==> c.error == ResolverError(net.resolveMx(domain).reason)
  {
    match net.resolveMx(domain)
    case MxAnswer(_) => Returns(true)
    case NoAnswer => Returns(false)
    case NxDomain => Returns(false)
    case ResolverFailure(reason) => Raises(ResolverError(reason))
  }

  /**
   * `check_smtp_deliverability(domain, email)`: probes the exchange of the
   * first MX record in the resolver's order. Every exception is caught, so
   * this never raises.
   */
  function CheckSmtpDeliverability(net: Network, domain: string, email: string): bool
  {
    match net.resolveMx(domain)
    case MxAnswer(records) =>
      // `mx_records[0]` on an empty answer raises IndexError, which is caught
      |records| > 0 &&
      (match net.smtpSession(records[0].exchange, email)
       case SessionFailed => false
       case SessionCompleted(code, closedCleanly) => code == RecipientOk && closedCleanly)
    case _ => false
  }

  /** Deliverable exactly when the first exchange accepts the recipient with reply 250 and the session closes. */
  lemma DeliverableIffFirstExchangeSays250(net: Network, domain: string, email: string)
    ensures CheckSmtpDeliverability(net, domain, email) <==>
      && net.resolveMx(domain).MxAnswer?
      && |net.resolveMx(domain).records| > 0
      && net.smtpSession(net.resolveMx(domain).records[0].exchange, email) == SessionCompleted(250, true)
  {
  }

  /**
   * Only the first record counts: two answers whose first records name the
   * same exchange give the same verdict, whatever their preferences and
   * whatever records follow (there is no sorting and no fallback host).
   */
  lemma OnlyFirstRecordCounts(net: Network, net': Network, domain: string, email: string)
    requires net.resolveMx(domain).MxAnswer? && net'.resolveMx(domain).MxAnswer?
    requires |net.resolveMx(domain).records| > 0 && |net'.resolveMx(domain).records| > 0
    requires net.resolveMx(domain).records[0].exchange == net'.resolveMx(domain).records[0].exchange
    requires net.smtpSession == net'.smtpSession
    ensures CheckSmtpDeliverability(net, domain, email) == CheckSmtpDeliverability(net', domain, email)
  {
  }

  /**
   * `email.split('@')[1]`, as the placeholder checks and `validate_email`
   * compute the domain; it raises IndexError when there is no '@'.
   */
  function DomainPart(email: string): (r: Result<string, Error>)
    ensures r.Failure? <==> '@' !in email
    ensures r.Failure? ==> r.error == IndexError
    ensures r.Success? ==> '@' !in r.value
  {
    SplitLength(email, '@');
    var parts := Split(email, '@');
    if |parts| >= 2 then Success(parts[1]) else Failure(IndexError)
  }

  /** `check_authentication_anti_spam(email)`: a placeholder that re-runs the MX check on the domain. */
  function CheckAuthenticationAntiSpam(net: Network, email: string): Checked
  {
    match DomainPart(email)
    case Failure(e) => Raises(e)
    case Success(domain) => IsDomainValid(net, domain)
  }

  /** `check_user_engagement(email)`: a placeholder that always passes. */
  function CheckUserEngagement(email: string): bool
  {
    true
  }

  /** `check_mailbox_availability(email)`: a placeholder that re-runs the SMTP check. */
  function CheckMailboxAvailability(net: Network, email: string): Checked
  {
    match DomainPart(email)
    case Failure(e) => Raises(e)
    case Success(domain) => Returns(CheckSmtpDeliverability(net, domain, email))
  }

  /** With the network's answers fixed, the placeholder stages repeat the verdicts of the stages they copy. */
  lemma PlaceholdersRepeatEarlierChecks(net: Network, email: string, domain: string)
    requires DomainPart(email) == Success(domain)
    ensures CheckAuthenticationAntiSpam(net, email) == IsDomainValid(net, domain)
    ensures CheckMailboxAvailability(net, email) == Returns(CheckSmtpDeliverability(net, domain, email))
    ensures CheckUserEngagement(email)
  {
  }
}
