/**
 * The `GET /validate` endpoint: the `email` query parameter holds a
 * comma-separated list; each piece is stripped of surrounding whitespace
 * and validated in order, and the list of results is the reply.
 */
module Batch {
  import opened Wrappers
  import opened PyStrings
  import opened EmailSyntax
  import opened ValidationResult
  import opened MailOracles
  import opened Pipeline

  /**
   * The reply of `validate()`: the 400 error for an empty parameter, the
   * 200 list of results, or the server error Flask answers when an
   * exception escapes from one of the validations.
   */
  datatype Reply = NoEmailProvided | Results(results: seq<Dict>) | ServerError(error: Error)

  /** The HTTP status of each reply. */
  function Status(r: Reply): (code: int)
    ensures code == 200 <==> r.Results?
  {
    match r
    case NoEmailProvided => 400
    case Results(_) => 200
    case ServerError(_) => 500
  }

  /** `[email.strip() for email in emails.split(',')]`: the addresses to validate. */
  function Pieces(param: string): (ps: seq<string>)
    ensures |ps| == |Split(param, ',')| == Count(param, ',') + 1
    ensures forall i :: 0 <= i < |ps| ==> ps[i] == Strip(Split(param, ',')[i])
  {
    SplitLength(param, ',');
    var parts := Split(param, ',');
    seq(|parts|, i requires 0 <= i < |parts| => Strip(parts[i]))
  }

  /**
   * The list comprehension `[validate(e) for e in emails]`: the addresses
   * are validated left to right, and the first validation that raises
   * aborts the whole list.
   */
  function ValidateEach(emails: seq<string>, validate: string -> Outcome): Result<seq<Dict>, Error>
  {
    if emails == [] then Success([])
    else
      match validate(emails[0])
      case Raised(e) => Failure(e)
      case Returned(d) =>
        match ValidateEach(emails[1..], validate)
        case Failure(e) => Failure(e)
        case Success(ds) => Success([d] + ds)
  }

  /** `validate_email` against the network `net`, as the comprehension applies it. */
  function Validator(net: Network): string -> Outcome
  {
    e => Validated(e, net)
  }

  /** `validate()` with the parameter `param`; a missing parameter reads as the empty string. */
  function Validate(param: string, net: Network): Reply
  {
    if param == "" then NoEmailProvided
    else
      match ValidateEach(Pieces(param), Validator(net))
      case Success(rs) => Results(rs)
      case Failure(e) => ServerError(e)
  }

  /**
   * The list succeeds exactly when no address raises, and then holds one
   * result per address, in the order of the addresses.
   */
  lemma {:induction false} ValidateEachInOrder(emails: seq<string>, validate: string -> Outcome)
    ensures ValidateEach(emails, validate).Success? <==> forall i :: 0 <= i < |emails| ==> validate(emails[i]).Returned?
    ensures ValidateEach(emails, validate).Success? ==>
      && |ValidateEach(emails, validate).value| == |emails|
      && forall i :: 0 <= i < |emails| ==> ValidateEach(emails, validate).value[i] == validate(emails[i]).result
  {
    if emails != [] {
      ValidateEachInOrder(emails[1..], validate);
      assert forall i :: 1 <= i < |emails| ==> emails[i] == emails[1..][i - 1];
    }
  }

  /** An aborted list carries the exception of the first address that raised. */
  lemma {:induction false} ValidateEachAbortsAtFirst(emails: seq<string>, validate: string -> Outcome)
    requires ValidateEach(emails, validate).Failure?
    ensures exists k ::
      && 0 <= k < |emails|
      && validate(emails[k]) == Raised(ValidateEach(emails, validate).error)
      && forall i :: 0 <= i < k ==> validate(emails[i]).Returned?
  {
    if !validate(emails[0]).Raised? {
      ValidateEachAbortsAtFirst(emails[1..], validate);
      var k :|
        && 0 <= k < |emails[1..]|
        && validate(emails[1..][k]) == Raised(ValidateEach(emails[1..], validate).error)
        && forall i :: 0 <= i < k ==> validate(emails[1..][i]).Returned?;
      assert emails[k + 1] == emails[1..][k];
      assert forall i :: 1 <= i < k + 1 ==> emails[i] == emails[1..][i - 1];
    }
  }

  /** The 400 reply comes exactly for the empty parameter. */
  lemma EmptyParameterRejected(param: string, net: Network)
    ensures Validate(param, net) == NoEmailProvided <==> param == ""
    ensures Status(Validate(param, net)) == 400 <==> param == ""
  {
  }

  /**
   * A 200 reply holds one result per comma-separated piece, in order:
   * result `i` is what `validate_email` returns for piece `i` stripped.
   */
  lemma ResultsFollowPieces(param: string, net: Network)
    requires Validate(param, net).Results?
    ensures |Validate(param, net).results| == |Pieces(param)| == Count(param, ',') + 1
    ensures forall i :: 0 <= i < |Pieces(param)| ==> Validated(Pieces(param)[i], net) == Returned(Validate(param, net).results[i])
  {
    ValidateEachInOrder(Pieces(param), Validator(net));
  }

  /** The reply is a server error exactly when some piece raises. */
  lemma ServerErrorIffSomePieceRaises(param: string, net: Network)
    ensures Validate(param, net).ServerError? <==>
      param != "" && exists i :: 0 <= i < |Pieces(param)| && Validated(Pieces(param)[i], net).Raised?
  {
    if param != "" {
      ValidateEachInOrder(Pieces(param), Validator(net));
    }
  }

  /**
   * A server error carries the exception of the first piece that raised,
   * every piece before it having returned; it is always a resolver error,
   * never the IndexError of a missing '@'.
   */
  lemma ServerErrorIsFirstRaise(param: string, net: Network)
    requires Validate(param, net).ServerError?
    ensures exists k ::
      && 0 <= k < |Pieces(param)|
      && Validated(Pieces(param)[k], net) == Raised(Validate(param, net).error)
      && forall i :: 0 <= i < k ==> Validated(Pieces(param)[i], net).Returned?
    ensures Validate(param, net).error.ResolverError?
  {
    var ps := Pieces(param);
    var validate := Validator(net);
    ValidateEachAbortsAtFirst(ps, validate);
    var k :|
      && 0 <= k < |ps|
      && validate(ps[k]) == Raised(ValidateEach(ps, validate).error)
      && forall i :: 0 <= i < k ==> validate(ps[i]).Returned?;
    assert Validate(param, net).error == ValidateEach(ps, validate).error;
    assert Validated(ps[k], net) == Raised(Validate(param, net).error);
    assert forall i :: 0 <= i < k ==> Validated(ps[i], net).Returned?;
    NeverIndexError(ps[k], net);
  }

  /** Every 200 reply holds only staged results. */
  lemma ResultsAreStaged(param: string, net: Network)
    requires Validate(param, net).Results?
    ensures |Validate(param, net).results| == |Pieces(param)|
    ensures forall i :: 0 <= i < |Pieces(param)| ==> Staged(Pieces(param)[i], Validate(param, net).results[i])
  {
    var ps := Pieces(param);
    ValidateEachInOrder(ps, Validator(net));
    forall i | 0 <= i < |ps| ensures Staged(ps[i], Validate(param, net).results[i]) {
      ExpectedIsStaged(ps[i], StageChecks(ps[i], net));
    }
  }

  /** The pieces carry no surrounding whitespace, so stripping them again changes nothing. */
  lemma PiecesAreStripped(param: string)
    ensures forall i :: 0 <= i < |Pieces(param)| ==> Strip(Pieces(param)[i]) == Pieces(param)[i]
  {
    forall i | 0 <= i < |Pieces(param)| ensures Strip(Pieces(param)[i]) == Pieces(param)[i] {
      StripIdempotent(Split(param, ',')[i]);
    }
  }

  /** A parameter without a comma is one address: the parameter stripped. */
  lemma SingleAddress(param: string)
    requires ',' !in param
    ensures Pieces(param) == [Strip(param)]
  {
    assert Split(param, ',') == [param] by {
      assert Find(param, ',') == |param|;
    }
  }
}
