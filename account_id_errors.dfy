/** Errors reported when an account ID fails validation: the six kinds of
    failure, one predicate per kind, the message each kind displays as, and
    the error value that pairs a kind with the offending account ID. How an
    account ID is validated, and which kind wins when several apply, is not
    part of this model. */
module AccountIdErrors {

  /** Why an account ID was rejected. */
  datatype ParseErrorKind =
    | TooLong
    | TooShort
    | HasCapsChars
    | HasConsecutiveSeparators
    | HasUnterminatedSeparators
    | HasInvalidChars
  {
    predicate IsTooLong()
      ensures IsTooLong() <==> this == TooLong
    {
      TooLong?
    }

    predicate IsTooShort()
      ensures IsTooShort() <==> this == TooShort
    {
      TooShort?
    }

    predicate HasCapsCharsKind()
      ensures HasCapsCharsKind() <==> this == HasCapsChars
    {
      HasCapsChars?
    }

    predicate HasConsecutiveSeparatorsKind()
      ensures HasConsecutiveSeparatorsKind() <==> this == HasConsecutiveSeparators
    {
      HasConsecutiveSeparators?
    }

    predicate HasUnterminatedSeparatorsKind()
      ensures HasUnterminatedSeparatorsKind() <==> this == HasUnterminatedSeparators
    {
      HasUnterminatedSeparators?
    }

    predicate HasInvalidCharsKind()
      ensures HasInvalidCharsKind() <==> this == HasInvalidChars
    {
      HasInvalidChars?
    }

    /** How many of the six predicates hold of this kind. */
    function PredicatesHolding(): (n: nat)
    {
      (if IsTooLong() then 1 else 0)
      + (if IsTooShort() then 1 else 0)
      + (if HasCapsCharsKind() then 1 else 0)
      + (if HasConsecutiveSeparatorsKind() then 1 else 0)
      + (if HasUnterminatedSeparatorsKind() then 1 else 0)
      + (if HasInvalidCharsKind() then 1 else 0)
    }

    /** The human-readable message of this kind. Invalid characters are
        reached through the catch-all arm. */
    function Message(): (m: string)
      ensures |m| > 0
    {
      match this
      case TooLong => "the account ID is too long"
      case TooShort => "the account ID is too short"
      case HasCapsChars => "the account ID has upper-case characters"
      case HasConsecutiveSeparators => "the account ID has separators immediately following each other"
      case HasUnterminatedSeparators => "the account ID begins or ends with a separator"
      case _ => "the account ID has an invalid format"
    }
  }

  /** An error: the kind of failure and the account ID that failed. */
  datatype ParseAccountError = ParseAccountError(ParseErrorKind, string)
  {
    /** The kind of failure (the first component). */
    function Kind(): (k: ParseErrorKind)
      ensures exists id :: this == ParseAccountError(k, id)
    {
      match this
      case ParseAccountError(k, _) => k
    }

    /** The rejected account ID (the second component). */
    function GetAccountId(): (id: string)
      ensures exists k :: this == ParseAccountError(k, id)
    {
      match this
      case ParseAccountError(_, id) => id
    }

    /** The display form `[<account ID>]: <message>`. */
    function ToString(): (s: string)
      ensures |s| == |GetAccountId()| + 4 + |Kind().Message()|
      ensures s[0] == '[' && s[1..|GetAccountId()| + 1] == GetAccountId()
      ensures s[|GetAccountId()| + 1..|GetAccountId()| + 4] == "]: "
      ensures s[|GetAccountId()| + 4..] == Kind().Message()
    {
      "[" + GetAccountId() + "]: " + Kind().Message()
    }
  }

  /** Each predicate holds of its own kind and of no other, so exactly one
      of the six holds of any kind. */
  lemma ExactlyOnePredicateHolds(k: ParseErrorKind)
    ensures k.IsTooLong() <==> k == TooLong
    ensures k.IsTooShort() <==> k == TooShort
    ensures k.HasCapsCharsKind() <==> k == HasCapsChars
    ensures k.HasConsecutiveSeparatorsKind() <==> k == HasConsecutiveSeparators
    ensures k.HasUnterminatedSeparatorsKind() <==> k == HasUnterminatedSeparators
    ensures k.HasInvalidCharsKind() <==> k == HasInvalidChars
    ensures k.PredicatesHolding() == 1
  {
  }

  /** No message ends with a different, shorter or equally long message. */
  lemma MessagesSuffixFree(k1: ParseErrorKind, k2: ParseErrorKind)
    requires k1 != k2 && |k1.Message()| <= |k2.Message()|
    ensures k2.Message()[|k2.Message()| - |k1.Message()|..] != k1.Message()
  {
  }

  /** Distinct kinds display distinct messages. */
  lemma MessageInjective(k1: ParseErrorKind, k2: ParseErrorKind)
    requires k1.Message() == k2.Message()
    ensures k1 == k2
  {
  }

  /** The invalid-characters kind, matched by no explicit arm, displays the
      generic invalid-format message. */
  lemma InvalidCharsMessage()
    ensures HasInvalidChars.Message() == "the account ID has an invalid format"
  {
  }

  /** The accessors recover both components of an error. */
  lemma AccessorsRecoverComponents(k: ParseErrorKind, id: string)
    ensures ParseAccountError(k, id).Kind() == k
    ensures ParseAccountError(k, id).GetAccountId() == id
  {
  }

  /** Errors that display alike have the same kind: the display form ends
      with the message, and no message ends with another one. */
  lemma DisplayDeterminesKind(e1: ParseAccountError, e2: ParseAccountError)
    requires e1.ToString() == e2.ToString()
    ensures e1.Kind() == e2.Kind()
  {
    var k1, k2 := e1.Kind(), e2.Kind();
    var m1, m2 := k1.Message(), k2.Message();
    var s := e1.ToString();
    assert s[|s| - |m1|..] == m1 && s[|s| - |m2|..] == m2;
    if k1 != k2 {
      if |m1| <= |m2| {
        assert m2[|m2| - |m1|..] == m1;
        MessagesSuffixFree(k1, k2);
      } else {
        assert m1[|m1| - |m2|..] == m2;
        MessagesSuffixFree(k2, k1);
      }
    }
  }

  /** The display form identifies the error: equal displays come from equal
      errors. */
  lemma DisplayInjective(e1: ParseAccountError, e2: ParseAccountError)
    requires e1.ToString() == e2.ToString()
    ensures e1 == e2
  {
    var ParseAccountError(k1, id1) := e1;
    var ParseAccountError(k2, id2) := e2;
    DisplayDeterminesKind(e1, e2);
    var s := e1.ToString();
    assert id1 == s[1..|id1| + 1];
    assert id2 == s[1..|id2| + 1];
  }
}
