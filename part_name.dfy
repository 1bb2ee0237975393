/**
  The part-name logic of `StatefulParser::onPartHeaders`: find the
  Content-Disposition header, find the first `name=` in its value and read the
  token after it, quoted or not (section 4.2 of RFC 7578).
 */
module PartName {
  import opened Bytes
  import opened MultipartTypes

  /** "Content-Disposition" */
  const CONTENT_DISPOSITION: seq<byte> :=
    [0x43, 0x6F, 0x6E, 0x74, 0x65, 0x6E, 0x74, 0x2D, 0x44, 0x69,
     0x73, 0x70, 0x6F, 0x73, 0x69, 0x74, 0x69, 0x6F, 0x6E]

  /** "name=" */
  const NAME_EQ: seq<byte> := [0x6E, 0x61, 0x6D, 0x65, 0x3D]

  const DQUOTE: byte := 0x22
  const SQUOTE: byte := 0x27

  /** Space, tab, LF, CR and form feed end an unquoted name. */
  const TOKEN_STOPS: set<byte> := {0x20, 0x09, 0x0A, 0x0D, 0x0C}

  /** `i` is where the first `name=` of `value` starts. */
  predicate FirstNameAt(value: seq<byte>, i: nat)
  {
    OccursAt(value, NAME_EQ, i) && forall j :: 0 <= j < i ==> !OccursAt(value, NAME_EQ, j)
  }

  predicate IsQuoteAt(value: seq<byte>, k: nat)
  {
    k < |value| && (value[k] == DQUOTE || value[k] == SQUOTE)
  }

  /** `t` is the unquoted token starting at `start`: free of stop bytes and running up to one or to the end. */
  predicate IsBareToken(value: seq<byte>, start: nat, t: seq<byte>)
  {
    start + |t| <= |value| && value[start..start + |t|] == t &&
    (forall k :: 0 <= k < |t| ==> t[k] !in TOKEN_STOPS) &&
    (start + |t| == |value| || value[start + |t|] in TOKEN_STOPS)
  }

  /** The name carried by a Content-Disposition value. */
  function NameToken(value: seq<byte>, enclosed: EnclosedParser): (r: Result<seq<byte>>)
    ensures r.Err? ==> r.error == MissingPartName || r.error == UnparsablePartName
  {
    match FindText(value, NAME_EQ, 0)
    case None => Err(MissingPartName)
    case Some(i) =>
      var start := i + |NAME_EQ|;
      if IsQuoteAt(value, start) then
        match enclosed(value[start..], value[start])
        case None => Err(UnparsablePartName)
        case Some(n) => Ok(n)
      else
        Ok(value[start..SkipUntil(value, start, TOKEN_STOPS)])
  }

  /** The name is reported missing exactly when the value holds no `name=` at all. */
  lemma NameTokenMissing(value: seq<byte>, enclosed: EnclosedParser)
    ensures NameToken(value, enclosed) == Err(MissingPartName) <==>
            forall j :: 0 <= j <= |value| ==> !OccursAt(value, NAME_EQ, j)
  {
    match FindText(value, NAME_EQ, 0)
    case None =>
    case Some(i) =>
      var start := i + |NAME_EQ|;
      if IsQuoteAt(value, start) {
        match enclosed(value[start..], value[start])
        case None =>
        case Some(n) =>
      }
  }

  /** After the first `name=` and no quote, the name is the bare token up to the next stop byte. */
  lemma NameTokenBare(value: seq<byte>, enclosed: EnclosedParser, i: nat)
    requires FirstNameAt(value, i) && !IsQuoteAt(value, i + |NAME_EQ|)
    ensures NameToken(value, enclosed).Ok?
    ensures IsBareToken(value, i + |NAME_EQ|, NameToken(value, enclosed).value)
  {
    assert FindText(value, NAME_EQ, 0) == Some(i);
    var start := i + |NAME_EQ|;
    var stop := SkipUntil(value, start, TOKEN_STOPS);
    assert IsBareToken(value, start, value[start..stop]);
  }

  /** After the first `name=` and a quote, the name is whatever the enclosed-string reader returns. */
  lemma NameTokenQuoted(value: seq<byte>, enclosed: EnclosedParser, i: nat)
    requires FirstNameAt(value, i) && IsQuoteAt(value, i + |NAME_EQ|)
    ensures var start := i + |NAME_EQ|;
            match enclosed(value[start..], value[start])
            case None => NameToken(value, enclosed) == Err(UnparsablePartName)
            case Some(n) => NameToken(value, enclosed) == Ok(n)
  {
    assert FindText(value, NAME_EQ, 0) == Some(i);
  }

  /** The part name `onPartHeaders` extracts from a part's headers. */
  function PartNameOf(headers: HeaderMap, enclosed: EnclosedParser): (r: Result<seq<byte>>)
    ensures r == Err(MissingDispositionHeader) <==> CONTENT_DISPOSITION !in headers
    ensures CONTENT_DISPOSITION in headers ==> r == NameToken(headers[CONTENT_DISPOSITION], enclosed)
  {
    if CONTENT_DISPOSITION in headers then NameToken(headers[CONTENT_DISPOSITION], enclosed)
    else Err(MissingDispositionHeader)
  }
}
