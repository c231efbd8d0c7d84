/**
 * The associate eligibility check: the CPF is reduced to its digits, sent to
 * the remote CPF-validation service, and the associate may vote only when that
 * service answers ABLE_TO_VOTE. A configuration flag switches the whole check
 * off.
 */
module AssociateValidationService {
  import opened Domain

  const VALID_CPF_STATUS := "ABLE_TO_VOTE"
  const CPF_ERROR := "Erro ao validar cpf"

  /**
   * What the remote client produces for one query: it fails (any exception of
   * the HTTP client), answers with no body, or answers with a body whose
   * `status` may be null.
   */
  datatype CpfReply = ClientFailed | NullResponse | Replied(status: Option<string>)

  /**
   * The outcome of `isValidCpf`, together with the text it sent to the client,
   * if it called the client at all.
   */
  datatype CpfCheck = CpfCheck(outcome: Result<bool>, query: Option<string>)

  /** The characters the pattern `[0-9]` matches. */
  predicate IsDigit(c: char)
  {
    '0' <= c <= '9'
  }

  predicate AllDigits(s: string)
  {
    forall i :: 0 <= i < |s| ==> IsDigit(s[i])
  }

  /** `cpf.replaceAll("[^0-9]", "")`: every character that is not an ASCII digit is removed. */
  function CleanCpf(cpf: string): (r: string)
    ensures |r| <= |cpf|
  {
    if |cpf| == 0 then ""
    else (if IsDigit(cpf[0]) then [cpf[0]] else []) + CleanCpf(cpf[1..])
  }

  /** Cleaning works piecewise: the digits of a concatenation are the digits of each part, in order. */
  lemma {:induction false} CleanCpfAppend(a: string, b: string)
    ensures CleanCpf(a + b) == CleanCpf(a) + CleanCpf(b)
  {
    if |a| > 0 {
      assert (a + b)[1..] == a[1..] + b;
      CleanCpfAppend(a[1..], b);
    } else {
      assert a + b == b;
    }
  }

  /** Each digit occurs in the cleaned CPF exactly as often as in the input; nothing else occurs in it. */
  lemma {:induction false} CleanCpfKeepsEveryDigit(cpf: string, c: char)
    ensures IsDigit(c) ==> multiset(CleanCpf(cpf))[c] == multiset(cpf)[c]
    ensures !IsDigit(c) ==> multiset(CleanCpf(cpf))[c] == 0
  {
    if |cpf| > 0 {
      CleanCpfKeepsEveryDigit(cpf[1..], c);
      assert cpf == [cpf[0]] + cpf[1..];
      assert multiset(cpf) == multiset([cpf[0]]) + multiset(cpf[1..]);
    }
  }

  /** The cleaned CPF holds nothing but digits. */
  lemma {:induction false} CleanCpfIsDigits(cpf: string)
    ensures AllDigits(CleanCpf(cpf))
  {
    if |cpf| > 0 {
      CleanCpfIsDigits(cpf[1..]);
    }
  }

  /** A CPF that is already bare digits is sent unchanged. */
  lemma {:induction false} DigitsAreKept(cpf: string)
    requires AllDigits(cpf)
    ensures CleanCpf(cpf) == cpf
  {
    if |cpf| > 0 {
      DigitsAreKept(cpf[1..]);
      assert [cpf[0]] + cpf[1..] == cpf;
    }
  }

  /** Cleaning an already cleaned CPF changes nothing. */
  lemma CleanCpfIdempotent(cpf: string)
    ensures CleanCpf(CleanCpf(cpf)) == CleanCpf(cpf)
  {
    CleanCpfIsDigits(cpf);
    DigitsAreKept(CleanCpf(cpf));
  }

  /**
   * A CPF written in the usual `ddd.ddd.ddd-dd` layout — digit groups joined by
   * punctuation — reaches the client as its digit groups alone, in order
   * ("123.456.789-01" becomes "12345678901").
   */
  lemma FormattedCpfLosesPunctuation(a: string, b: string, c: string, d: string, dot1: char, dot2: char, dash: char)
    requires AllDigits(a) && AllDigits(b) && AllDigits(c) && AllDigits(d)
    requires !IsDigit(dot1) && !IsDigit(dot2) && !IsDigit(dash)
    ensures CleanCpf(a + [dot1] + b + [dot2] + c + [dash] + d) == a + b + c + d
  {
    var s1 := a + [dot1];
    var s2 := s1 + b;
    var s3 := s2 + [dot2];
    var s4 := s3 + c;
    var s5 := s4 + [dash];
    DigitsAreKept(a);
    PunctuationIsDropped(a, dot1);
    DigitsAreAppended(s1, b);
    PunctuationIsDropped(s2, dot2);
    DigitsAreAppended(s3, c);
    PunctuationIsDropped(s4, dash);
    DigitsAreAppended(s5, d);
  }

  lemma PunctuationIsDropped(prefix: string, p: char)
    requires !IsDigit(p)
    ensures CleanCpf(prefix + [p]) == CleanCpf(prefix)
  {
    assert CleanCpf([p]) == [];
    CleanCpfAppend(prefix, [p]);
  }

  lemma DigitsAreAppended(prefix: string, digits: string)
    requires AllDigits(digits)
    ensures CleanCpf(prefix + digits) == CleanCpf(prefix) + digits
  {
    DigitsAreKept(digits);
    CleanCpfAppend(prefix, digits);
  }

  /**
   * `isValidCpf(cpf)`. `enabled` is the `app.cpf-validation-enabled` flag and
   * `client` the remote service, as a function of the query it receives. A null
   * CPF, a failing client and a null reply all end in the same RuntimeException.
   */
  function IsValidCpf(enabled: bool, client: string -> CpfReply, cpf: Option<string>): (r: CpfCheck)
    ensures !enabled ==> r == CpfCheck(Success(true), None)
    ensures enabled && cpf.None? ==> r == CpfCheck(Failure(Runtime(CPF_ERROR)), None)
    ensures enabled && cpf.Some? ==> r.query == Some(CleanCpf(cpf.value))
    ensures r.outcome == Success(true) <==>
      !enabled || (cpf.Some? && client(CleanCpf(cpf.value)) == Replied(Some(VALID_CPF_STATUS)))
    ensures enabled && cpf.Some? ==>
      (r.outcome.Failure? <==> client(CleanCpf(cpf.value)) in {ClientFailed, NullResponse})
    ensures r.outcome.Failure? ==> r.outcome.error == Runtime(CPF_ERROR)
  {
    if !enabled then CpfCheck(Success(true), None)
    else if cpf.None? then CpfCheck(Failure(Runtime(CPF_ERROR)), None)
    else
      var query := CleanCpf(cpf.value);
      match client(query)
      case ClientFailed => CpfCheck(Failure(Runtime(CPF_ERROR)), Some(query))
      case NullResponse => CpfCheck(Failure(Runtime(CPF_ERROR)), Some(query))
      case Replied(status) => CpfCheck(Success(status.Some? && status.value == VALID_CPF_STATUS), Some(query))
  }

  /** A formatted and an unformatted CPF with the same digits get the same answer. */
  lemma SameDigitsSameAnswer(enabled: bool, client: string -> CpfReply, a: string, b: string)
    requires CleanCpf(a) == CleanCpf(b)
    ensures IsValidCpf(enabled, client, Some(a)) == IsValidCpf(enabled, client, Some(b))
  {
  }
}
