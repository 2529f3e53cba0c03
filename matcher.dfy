/**
  The Matcher: validates the matching configuration and turns a row's
  identifying fields into an ordered list of normalized keys, under the
  `email` rule (strip, then lower-case), the `phone` rule (digits only) or
  the composite `email_or_phone` mode, where every field names its own rule.
 */
module Matching {
  import opened Results
  import opened Text
  import opened RubyHash

  datatype MatcherType = Email | Phone | EmailOrPhone

  /** The one error the matcher raises, "Unknown matcher type!", both for a bad
      configuration and for a field that reaches no normalization rule. */
  datatype Error = UnknownMatcherType

  /** A validated matcher: the type of the whole matcher and, in insertion
      order, the type configured for each lower-cased field name. */
  datatype Matcher = Matcher(matchAs: MatcherType, fieldTypes: Hash<MatcherType>)

  const ValidMatcherTypes: seq<string> := ["email", "phone", "email_or_phone"]

  function TypeName(t: MatcherType): (r: string)
    ensures IsValidMatcherType(r)
  {
    match t
    case Email => "email"
    case Phone => "phone"
    case EmailOrPhone => "email_or_phone"
  }

  /** Matcher.valid_matcher_type?: membership in the three type names. */
  predicate IsValidMatcherType(s: string) {
    s in ValidMatcherTypes
  }

  /** The valid type names are exactly the names of the three matcher types. */
  function ParseMatcherType(s: string): (r: Option<MatcherType>)
    ensures r.Some? <==> IsValidMatcherType(s)
    ensures r.Some? ==> TypeName(r.value) == s
  {
    if s == "email" then Some(Email)
    else if s == "phone" then Some(Phone)
    else if s == "email_or_phone" then Some(EmailOrPhone)
    else None
  }

  /** Matcher.normalize_matcher_type: strip, then lower-case. */
  function NormalizeMatcherType(s: string): string {
    Downcase(Strip(s))
  }

  /** Whitespace around a matcher type and the case of its letters do not
      matter: " EMAIL " names the same type as "email". */
  lemma NormalizeMatcherTypeIgnoresPadding(pre: string, s: string, post: string)
    requires forall i :: 0 <= i < |pre| ==> IsStripChar(pre[i])
    requires forall i :: 0 <= i < |post| ==> IsStripChar(post[i])
    requires s != [] && !IsStripChar(s[0]) && !IsStripChar(s[|s| - 1])
    ensures NormalizeMatcherType(pre + s + post) == Downcase(s)
    ensures ParseMatcherType(NormalizeMatcherType(pre + s + post)) == ParseMatcherType(Downcase(s))
  {
    StripPadded(pre, s, post);
  }

  lemma NormalizeMatcherTypeIdempotent(s: string)
    ensures NormalizeMatcherType(NormalizeMatcherType(s)) == NormalizeMatcherType(s)
  {
    StripDowncase(Strip(s));
    StripIdempotent(s);
    DowncaseIdempotent(Strip(s));
  }

  // ---------------------------------------------------------------------------
  // Construction: `transform_keys!(&:downcase)`, then `transform_values!`
  // normalizing and validating every field type.

  /** The block given to `transform_values!`: the field type, once
      normalized, if it is valid; None where the block raises. */
  function FieldType(raw: string): (r: Option<MatcherType>)
    ensures r.Some? <==> IsValidMatcherType(NormalizeMatcherType(raw))
    ensures r.Some? ==> TypeName(r.value) == NormalizeMatcherType(raw)
  {
    ParseMatcherType(NormalizeMatcherType(raw))
  }

  /** What Matcher.new(match_as, field_matcher_hash) produces or raises. */
  function Configure(matchAs: string, fieldHash: Hash<string>): Result<Matcher, Error>
    requires Valid(fieldHash)
  {
    var t := ParseMatcherType(NormalizeMatcherType(matchAs));
    if t.None? then Failure(UnknownMatcherType)
    else
      match TransformValues(TransformKeys(fieldHash, Downcase), FieldType)
      case None => Failure(UnknownMatcherType)
      case Some(fieldTypes) => Success(Matcher(t.value, fieldTypes))
  }

  /** Matcher#initialize: validate the matcher type, lower-case the field
      names, then normalize and validate each field's type. */
  method NewMatcher(matchAs: string, fieldHash: Hash<string>) returns (r: Result<Matcher, Error>)
    requires Valid(fieldHash)
    ensures r == Configure(matchAs, fieldHash)
  {
    var t := NormalizeMatcherType(matchAs);
    if !IsValidMatcherType(t) {
      return Failure(UnknownMatcherType);
    }
    var h := TransformKeysInPlace(fieldHash, Downcase);
    TransformKeysKeepsValid(fieldHash, Downcase);
    var types := TransformValuesInPlace(h, FieldType);
    if types.None? {
      return Failure(UnknownMatcherType);
    }
    return Success(Matcher(ParseMatcherType(t).value, types.value));
  }

  /** A valid matcher type whose construction still fails has some lower-cased
      field name whose last raw type is invalid. */
  lemma ConfigureFailsOnlyOnInvalidType(matchAs: string, h: Hash<string>)
    requires Valid(h) && IsValidMatcherType(NormalizeMatcherType(matchAs))
    requires Configure(matchAs, h).Failure?
    ensures exists x ::
      && LastValue(h, |h.keys|, x, Downcase).Some?
      && !IsValidMatcherType(NormalizeMatcherType(LastValue(h, |h.keys|, x, Downcase).value))
  {
    assert TransformValues(TransformKeys(h, Downcase), FieldType).None?;
    TransformKeysThenValues(h, Downcase, FieldType);
    var x :| LastValue(h, |h.keys|, x, Downcase).Some? && FieldType(LastValue(h, |h.keys|, x, Downcase).value).None?;
    assert !IsValidMatcherType(NormalizeMatcherType(LastValue(h, |h.keys|, x, Downcase).value));
  }

  /** A lower-cased field name `x` whose last raw type is invalid makes construction fail. */
  lemma ConfigureFailsOnInvalidType(matchAs: string, h: Hash<string>, x: string)
    requires Valid(h) && LastValue(h, |h.keys|, x, Downcase).Some?
    requires !IsValidMatcherType(NormalizeMatcherType(LastValue(h, |h.keys|, x, Downcase).value))
    ensures Configure(matchAs, h).Failure?
  {
    assert FieldType(LastValue(h, |h.keys|, x, Downcase).value).None?;
    TransformKeysThenValues(h, Downcase, FieldType);
  }

  /** Construction fails exactly when the normalized matcher type is invalid,
      or when some lower-cased field name ends up holding an invalid type: the
      type of the last field that lower-cases to it. */
  lemma ConfigureFails(matchAs: string, fieldHash: Hash<string>)
    requires Valid(fieldHash)
    ensures var h := fieldHash;
      Configure(matchAs, h).Failure? <==>
        || !IsValidMatcherType(NormalizeMatcherType(matchAs))
        || exists x :: LastValue(h, |h.keys|, x, Downcase).Some?
             && !IsValidMatcherType(NormalizeMatcherType(LastValue(h, |h.keys|, x, Downcase).value))
  {
    var h := fieldHash;
    if Configure(matchAs, h).Failure? && IsValidMatcherType(NormalizeMatcherType(matchAs)) {
      ConfigureFailsOnlyOnInvalidType(matchAs, h);
    }
    if exists x :: LastValue(h, |h.keys|, x, Downcase).Some?
         && !IsValidMatcherType(NormalizeMatcherType(LastValue(h, |h.keys|, x, Downcase).value)) {
      var x :| LastValue(h, |h.keys|, x, Downcase).Some?
         && !IsValidMatcherType(NormalizeMatcherType(LastValue(h, |h.keys|, x, Downcase).value));
      ConfigureFailsOnInvalidType(matchAs, h, x);
    }
  }

  /** Lower-casing the keys leaves lower-case keys only. */
  lemma DowncasedKeysAreLowerCase(h: Hash<string>)
    requires Valid(h)
    ensures forall x :: x in TransformKeys(h, Downcase).values ==> IsLowerCase(x)
  {
    TransformKeysSpec(h, Downcase);
    ImageSetMembers(h.keys, |h.keys|, Downcase);
    forall x | x in TransformKeys(h, Downcase).values ensures IsLowerCase(x) {
      var j :| 0 <= j < |h.keys| && Downcase(h.keys[j]) == x;
      DowncaseIsLowerCase(h.keys[j]);
    }
  }

  /** A matcher that is built holds every lower-cased field name, once, and
      nothing else; every field name is lower-case. */
  lemma ConfigureFieldNames(matchAs: string, fieldHash: Hash<string>)
    requires Valid(fieldHash) && Configure(matchAs, fieldHash).Success?
    ensures var m, h := Configure(matchAs, fieldHash).value, fieldHash;
      && Valid(m.fieldTypes)
      && (forall x :: x in m.fieldTypes.values <==> exists j :: 0 <= j < |h.keys| && Downcase(h.keys[j]) == x)
      && (forall i :: 0 <= i < |FieldNames(m)| ==> IsLowerCase(FieldNames(m)[i]))
  {
    TransformKeysSpec(fieldHash, Downcase);
    ImageSetMembers(fieldHash.keys, |fieldHash.keys|, Downcase);
    DowncasedKeysAreLowerCase(fieldHash);
  }

  /** A matcher that is built has the type named by the normalized `match_as`,
      and under each field name the normalized type of the last field that
      lower-cases to it; every type is one of the three valid names. */
  lemma ConfigureFieldTypes(matchAs: string, fieldHash: Hash<string>)
    requires Valid(fieldHash) && Configure(matchAs, fieldHash).Success?
    ensures var m, h := Configure(matchAs, fieldHash).value, fieldHash;
      && TypeName(m.matchAs) == NormalizeMatcherType(matchAs)
      && forall x :: x in m.fieldTypes.values ==>
           && IsValidMatcherType(TypeName(m.fieldTypes.values[x]))
           && LastValue(h, |h.keys|, x, Downcase).Some?
           && TypeName(m.fieldTypes.values[x]) == NormalizeMatcherType(LastValue(h, |h.keys|, x, Downcase).value)
  {
    TransformKeysSpec(fieldHash, Downcase);
  }

  /** No two field names differ only in letter case. */
  predicate CaseDistinct(keys: seq<string>) {
    ImagesDistinct(keys, Downcase)
  }

  /** Without field names that collide once lower-cased, the matcher keeps the
      configured order of the fields, lower-cases their names, and gives each
      the type configured for it. */
  lemma ConfigureKeepsFields(matchAs: string, fieldHash: Hash<string>)
    requires Valid(fieldHash) && CaseDistinct(fieldHash.keys)
    requires Configure(matchAs, fieldHash).Success?
    ensures var m, h := Configure(matchAs, fieldHash).value, fieldHash;
      && |FieldNames(m)| == |h.keys|
      && forall i :: 0 <= i < |h.keys| ==>
           && FieldNames(m)[i] == Downcase(h.keys[i])
           && MatcherTypeForField(m, FieldNames(m)[i]) == ParseMatcherType(NormalizeMatcherType(h.values[h.keys[i]]))
  {
    var h := fieldHash;
    forall j | 0 <= j < |h.keys| ensures Downcase(Downcase(h.keys[j])) == Downcase(h.keys[j]) {
      DowncaseIdempotent(h.keys[j]);
    }
    TransformKeysInOrder(h, Downcase);
    TransformKeysKeepsValues(h, Downcase);
  }

  // ---------------------------------------------------------------------------
  // Normalization.

  /** Matcher#field_names: the configured field names, in order, each once. */
  function FieldNames(m: Matcher): (r: seq<string>)
    ensures Valid(m.fieldTypes) ==> forall i, j :: 0 <= i < j < |r| ==> r[i] != r[j]
  {
    m.fieldTypes.keys
  }

  /** Matcher#matcher_type_for_field: the configured type, or nil; a field
      has a type exactly when it is one of the field names. */
  function MatcherTypeForField(m: Matcher, fieldName: string): (r: Option<MatcherType>)
    ensures Valid(m.fieldTypes) ==> (r.Some? <==> fieldName in FieldNames(m))
  {
    Get(m.fieldTypes, fieldName)
  }

  /** Matcher#normalize_email: strip, then lower-case. */
  function NormalizeEmail(email: string): string {
    Downcase(Strip(email))
  }

  /** The email key is lower-case and neither starts nor ends with whitespace. */
  lemma NormalizeEmailShape(email: string)
    ensures var r := NormalizeEmail(email);
      && IsLowerCase(r)
      && (r == [] || (!IsStripChar(r[0]) && !IsStripChar(r[|r| - 1])))
  {
    var t := Strip(email);
    DowncaseIsLowerCase(t);
    DowncaseSpec(t);
    StripIsInnerSlice(email);
  }

  /** An address padded with whitespace gives the same key as the address
      itself, lower-cased: "  Foo@Bar.COM " and "foo@bar.com" match. */
  lemma NormalizeEmailIgnoresPadding(pre: string, email: string, post: string)
    requires forall i :: 0 <= i < |pre| ==> IsStripChar(pre[i])
    requires forall i :: 0 <= i < |post| ==> IsStripChar(post[i])
    requires email != [] && !IsStripChar(email[0]) && !IsStripChar(email[|email| - 1])
    ensures NormalizeEmail(pre + email + post) == Downcase(email)
  {
    StripPadded(pre, email, post);
  }

  /** The email rule is the rule matcher types are normalized by, so it is
      idempotent for the same reason. */
  lemma NormalizeEmailIdempotent(email: string)
    ensures NormalizeEmail(NormalizeEmail(email)) == NormalizeEmail(email)
  {
    NormalizeMatcherTypeIdempotent(email);
  }

  /** Matcher#normalize_phone: every non-digit removed. */
  function NormalizePhone(phone: string): (r: string)
    ensures |r| <= |phone|
    ensures forall i :: 0 <= i < |r| ==> IsDigit(r[i])
  {
    Digits(phone)
  }

  /** The phone key keeps exactly the decimal digits, in their order: a
      non-digit anywhere is dropped, a digit stays between the keys of what
      precedes and follows it. */
  lemma NormalizePhoneKeepsDigitsInOrder(before: string, c: char, after: string)
    ensures !IsDigit(c) ==> NormalizePhone(before + [c] + after) == NormalizePhone(before + after)
    ensures IsDigit(c) ==> NormalizePhone(before + [c] + after) == NormalizePhone(before) + [c] + NormalizePhone(after)
  {
    DigitsAppend(before + [c], after);
    DigitsAppend(before, [c]);
    DigitsAppend(before, after);
    DigitsOfChar(c);
  }

  lemma NormalizePhoneIdempotent(phone: string)
    ensures NormalizePhone(NormalizePhone(phone)) == NormalizePhone(phone)
  {
    DigitsIdempotent(phone);
  }

  /** Matcher#normalize_for_type: only `email` and `phone` reach a rule, and
      neither rule gives a key made of whitespace: a key is blank only when
      it is empty. */
  function NormalizeForType(t: MatcherType, value: string): (r: Result<string, Error>)
    ensures r.Failure? <==> t == EmailOrPhone
    ensures r.Success? ==> (Blank(r.value) <==> r.value == [])
  {
    match t
    case Email =>
      NormalizeEmailShape(value);
      Success(NormalizeEmail(value))
    case Phone =>
      var key := NormalizePhone(value);
      assert key != [] ==> !IsSpace(key[0]);
      Success(key)
    case EmailOrPhone => Failure(UnknownMatcherType)
  }

  /** The key for one field: in composite mode the field's configured type
      decides the rule, otherwise the type of the whole matcher does. */
  function NormalizeField(m: Matcher, fieldName: string, value: string): (r: Result<string, Error>)
    ensures r.Failure? <==>
      m.matchAs == EmailOrPhone && MatcherTypeForField(m, fieldName) !in {Some(Email), Some(Phone)}
    ensures r.Success? ==> (Blank(r.value) <==> r.value == [])
  {
    if m.matchAs == EmailOrPhone then
      match MatcherTypeForField(m, fieldName)
      case None => Failure(UnknownMatcherType)
      case Some(t) => NormalizeForType(t, value)
    else
      NormalizeForType(m.matchAs, value)
  }

  /** Matcher#normalize over the entries of a values hash, in order: one key
      per entry, blanks and duplicates included; fails if any entry fails. */
  function Normalize(m: Matcher, values: seq<(string, string)>): (r: Result<seq<string>, Error>)
    ensures r.Success? <==> forall i :: 0 <= i < |values| ==> NormalizeField(m, values[i].0, values[i].1).Success?
    ensures r.Success? ==> |r.value| == |values|
    ensures r.Success? ==> forall i :: 0 <= i < |values| ==> r.value[i] == NormalizeField(m, values[i].0, values[i].1).value
  {
    if values == [] then Success([])
    else
      match NormalizeField(m, values[0].0, values[0].1)
      case Failure(e) => Failure(e)
      case Success(key) =>
        match Normalize(m, values[1..])
        case Failure(e) => Failure(e)
        case Success(rest) => Success([key] + rest)
  }

  /** A matcher of type `email` or `phone` applies its rule to every value,
      whatever the field is called, and never fails. */
  lemma NormalizeSingleRule(m: Matcher, values: seq<(string, string)>)
    requires m.matchAs != EmailOrPhone
    ensures Normalize(m, values).Success?
    ensures forall i :: 0 <= i < |values| ==>
      Normalize(m, values).value[i] ==
        (if m.matchAs == Email then NormalizeEmail(values[i].1) else NormalizePhone(values[i].1))
  {
  }

  /** In composite mode each field uses its configured type; normalization
      fails exactly when some field has no type or is typed `email_or_phone`. */
  lemma NormalizeComposite(m: Matcher, values: seq<(string, string)>)
    requires m.matchAs == EmailOrPhone
    ensures Normalize(m, values).Failure? <==>
      exists i :: 0 <= i < |values| && MatcherTypeForField(m, values[i].0) in {None, Some(EmailOrPhone)}
    ensures Normalize(m, values).Success? ==> forall i :: 0 <= i < |values| ==>
      Normalize(m, values).value[i] ==
        (if MatcherTypeForField(m, values[i].0) == Some(Email) then NormalizeEmail(values[i].1)
         else NormalizePhone(values[i].1))
  {
  }
}
