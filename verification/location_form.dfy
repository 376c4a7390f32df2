/** The admin page's new-location form: the three fields are trimmed, each is
    checked on its own (presence first, then its character class), and the
    request goes out only when none failed. */
module LocationForm {
  import opened Text
  import opened Records

  datatype FieldError = Required | BadCharacters

  /** `[A-Za-z\s\-]`. */
  predicate CountryChar(c: char) {
    IsLetter(c) || IsSpace(c) || c == '-'
  }

  /** `[A-Za-z0-9\s\-]`. */
  predicate PlaceChar(c: char) {
    IsLetter(c) || IsDigit(c) || IsSpace(c) || c == '-'
  }

  /** The country check. */
  function CheckCountry(v: string): (e: Option<FieldError>)
    ensures e == Some(Required) <==> v == []
    ensures e == Some(BadCharacters) <==> v != [] && exists i :: 0 <= i < |v| && !CountryChar(v[i])
    ensures e.None? <==> v != [] && forall i :: 0 <= i < |v| ==> CountryChar(v[i])
  {
    if v == [] then Some(Required)
    else if exists i :: 0 <= i < |v| && !CountryChar(v[i]) then Some(BadCharacters)
    else None
  }

  /** The state and city check. */
  function CheckPlace(v: string): (e: Option<FieldError>)
    ensures e == Some(Required) <==> v == []
    ensures e == Some(BadCharacters) <==> v != [] && exists i :: 0 <= i < |v| && !PlaceChar(v[i])
    ensures e.None? <==> v != [] && forall i :: 0 <= i < |v| ==> PlaceChar(v[i])
  {
    if v == [] then Some(Required)
    else if exists i :: 0 <= i < |v| && !PlaceChar(v[i]) then Some(BadCharacters)
    else None
  }

  /** What a click on the create button leads to. */
  datatype Outcome =
    | NoToken
    | Rejected(countryError: Option<FieldError>, stateError: Option<FieldError>, cityError: Option<FieldError>)
    | Submitted(country: string, state: string, city: string)

  /** The create button's handler. */
  function CreateLocation(hasToken: bool, rawCountry: string, rawState: string, rawCity: string): (o: Outcome)
    ensures o == NoToken <==> !hasToken
    ensures o.Submitted? <==>
              hasToken && CheckCountry(Trim(rawCountry)).None? && CheckPlace(Trim(rawState)).None?
              && CheckPlace(Trim(rawCity)).None?
    ensures o.Submitted? ==> o == Submitted(Trim(rawCountry), Trim(rawState), Trim(rawCity))
    ensures o.Rejected? ==>
              && o.countryError == CheckCountry(Trim(rawCountry))
              && o.stateError == CheckPlace(Trim(rawState))
              && o.cityError == CheckPlace(Trim(rawCity))
  {
    if !hasToken then NoToken
    else
      var country := Trim(rawCountry);
      var state := Trim(rawState);
      var city := Trim(rawCity);
      var ce := CheckCountry(country);
      var se := CheckPlace(state);
      var ye := CheckPlace(city);
      if ce.None? && se.None? && ye.None? then Submitted(country, state, city)
      else Rejected(ce, se, ye)
  }

  /** A field of white space only is reported as missing, never as holding
      bad characters. */
  lemma BlankIsRequired(hasToken: bool, rawCountry: string, rawState: string, rawCity: string)
    requires hasToken
    requires forall i :: 0 <= i < |rawCountry| ==> IsSpace(rawCountry[i])
    ensures CreateLocation(hasToken, rawCountry, rawState, rawCity) ==
            Rejected(Some(Required), CheckPlace(Trim(rawState)), CheckPlace(Trim(rawCity)))
  {
  }

  /** Every value accepted as a country is also accepted as a state or city. */
  lemma CountryIsPlace(v: string)
    requires CheckCountry(v).None?
    ensures CheckPlace(v).None?
  {
  }

  /** Submitted values are non-empty and carry no surrounding white space. */
  lemma SubmittedTrimmed(hasToken: bool, rawCountry: string, rawState: string, rawCity: string)
    requires CreateLocation(hasToken, rawCountry, rawState, rawCity).Submitted?
    ensures var o := CreateLocation(hasToken, rawCountry, rawState, rawCity);
            && o.country != [] && !IsSpace(o.country[0]) && !IsSpace(o.country[|o.country| - 1])
            && o.state != [] && !IsSpace(o.state[0]) && !IsSpace(o.state[|o.state| - 1])
            && o.city != [] && !IsSpace(o.city[0]) && !IsSpace(o.city[|o.city| - 1])
  {
  }
}
