/**
 * Turning the text of the input box into the tickers the queries use: the
 * comma-separated tokens are cut to the first ten, each is stripped and
 * upper-cased, and only those the panel has columns for are kept, in input
 * order and with repetitions.
 */
module Validation {
  import opened Seqs
  import opened Text
  import opened BetaPanel

  /** At most this many tokens of the input are considered. */
  const MaxTickers: nat := 10

  /**
   * One token as the dashboard compares it, `t.strip().upper()`: a token
   * with no surrounding whitespace (see `Strip`) and no lower-case ASCII
   * letter (see `Upper`), no longer than the raw token.
   */
  function Normalize(token: string): (r: Ticker)
    ensures Strip(r) == r
    ensures |r| <= |token|
  {
    var s := Strip(token);
    UpperKeepsStripped(s);
    Upper(s)
  }

  /** A normalised token is upper case: upper-casing it changes nothing. */
  lemma NormalizeIsUpper(token: string)
    ensures Upper(Normalize(token)) == Normalize(token)
  {
  }

  /** Normalising a normalised ticker changes nothing. */
  lemma NormalizeIdempotent(token: string)
    ensures Normalize(Normalize(token)) == Normalize(token)
  {
    NormalizeIsUpper(token);
  }

  /** The first ten tokens of the input, each normalised, in input order. */
  function ParseTickers(input: string): (r: seq<Ticker>)
    ensures |r| <= MaxTickers
    ensures |r| == if |Split(input)| < MaxTickers then |Split(input)| else MaxTickers
    ensures forall i :: 0 <= i < |r| ==> r[i] == Normalize(Split(input)[i])
  {
    var tokens := Split(input);
    var kept := if |tokens| <= MaxTickers then tokens else tokens[..MaxTickers];
    seq(|kept|, i requires 0 <= i < |kept| => Normalize(kept[i]))
  }

  /**
   * Truncation comes before anything else: once the input has ten tokens,
   * whatever follows another comma is never looked at.
   */
  lemma ExtraTokensIgnored(input: string, more: string)
    requires |Split(input)| >= MaxTickers
    ensures ParseTickers(input + [Separator] + more) == ParseTickers(input)
  {
    SplitAppend(input, more);
    var longer := input + [Separator] + more;
    assert forall i :: 0 <= i < MaxTickers ==> Split(longer)[i] == Split(input)[i];
  }

  /** The parsed tickers the panel has columns for, in parsed order. */
  function ValidTickers(parsed: seq<Ticker>, available: set<Ticker>): (r: seq<Ticker>)
    ensures forall t :: t in r ==> t in available && t in parsed
    ensures |r| <= |parsed|
    ensures IsSubsequence(r, parsed)
    ensures forall t :: multiset(r)[t] == if t in available then multiset(parsed)[t] else 0
    ensures r == [] <==> forall t :: t in parsed ==> t !in available
  {
    var known := t => t in available;
    FilterIsSubsequence(parsed, known);
    FilterCount(parsed, known);
    Filter(parsed, known)
  }

  /**
   * The validated tickers for the input box, or `NoValidTickers` when
   * none of the first ten tokens names a ticker of the panel.
   */
  function Validate(input: string, p: Panel): (r: Result<seq<Ticker>>)
    ensures r.Failure? <==> forall t :: t in ParseTickers(input) ==> t !in AvailableTickers(p)
    ensures r.Failure? ==> r.error == NoValidTickers
    ensures r.Success? ==>
      && 1 <= |r.value| <= MaxTickers
      && IsSubsequence(r.value, ParseTickers(input))
      && forall t :: t in r.value ==> exists f :: Column(t, f) in p.cells
  {
    var parsed := ParseTickers(input);
    var valid := ValidTickers(parsed, AvailableTickers(p));
    if valid == [] then Failure(NoValidTickers) else Success(valid)
  }

  /**
   * A ticker entered more than once is kept once per entry, as long as
   * each entry is among the first ten tokens.
   */
  lemma DuplicatesKept(input: string, p: Panel, t: Ticker)
    requires Validate(input, p).Success?
    requires t in AvailableTickers(p)
    ensures multiset(Validate(input, p).value)[t] == multiset(ParseTickers(input))[t]
  {
  }

  /**
   * The tokens of an input are the pieces between its commas: for an input
   * written as separator-free tokens joined by commas, the parsed tickers are
   * the first ten tokens, normalised.
   */
  lemma ParseJoined(tokens: seq<string>)
    requires |tokens| >= 1
    requires forall t :: t in tokens ==> Separator !in t
    ensures var parsed := ParseTickers(Join(tokens));
      && |parsed| == (if |tokens| < MaxTickers then |tokens| else MaxTickers)
      && forall i :: 0 <= i < |parsed| ==> parsed[i] == Normalize(tokens[i])
  {
    SplitJoin(tokens);
  }

  /**
   * Truncation happens before validation: when none of the first ten tokens
   * names a ticker of the panel, the input is rejected whatever the later
   * tokens are (twelve tokens with only the eleventh known give no ticker).
   */
  lemma TruncationBeforeValidation(tokens: seq<string>, p: Panel)
    requires |tokens| >= 1
    requires forall t :: t in tokens ==> Separator !in t
    requires forall i :: 0 <= i < |tokens| && i < MaxTickers ==> Normalize(tokens[i]) !in AvailableTickers(p)
    ensures Validate(Join(tokens), p) == Failure(NoValidTickers)
  {
    ParseJoined(tokens);
  }

  /**
   * Case and surrounding whitespace of a token do not matter: a token that
   * normalises to a ticker of the panel is validated as that ticker.
   */
  lemma NormalizedTokenAccepted(tokens: seq<string>, p: Panel, i: nat)
    requires |tokens| >= 1
    requires forall t :: t in tokens ==> Separator !in t
    requires i < |tokens| && i < MaxTickers
    requires Normalize(tokens[i]) in AvailableTickers(p)
    ensures Validate(Join(tokens), p).Success?
    ensures Normalize(tokens[i]) in Validate(Join(tokens), p).value
  {
    ParseJoined(tokens);
    var parsed := ParseTickers(Join(tokens));
    assert parsed[i] == Normalize(tokens[i]);
    assert parsed[i] in multiset(parsed);
  }
}
