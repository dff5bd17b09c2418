/** `verify_district`: recognising the customer's delivery district. */
module District {
  import opened Wrappers
  import opened Fuzzy

  /** A district is recognised only when its similarity is strictly above this. */
  const DistrictThreshold := 75

  /** `verify_district` once the district names are listed: nothing for an
      empty prompt; otherwise the best match if it scores above 75, else
      nothing. The matcher is `process.extractOne` with its default scorer. */
  function VerifyDistrict(prompt: string, districts: seq<string>, extractOne: ExtractOne): (r: Outcome<Option<string>>)
    ensures prompt == "" ==> r == Returns(None)
    ensures prompt != "" && extractOne(prompt, districts).None? ==> r == RaisesTypeError
    ensures prompt != "" && extractOne(prompt, districts).Some? ==>
              r.Returns? && (r.value.Some? <==> extractOne(prompt, districts).value.score > DistrictThreshold)
    ensures r.Returns? && r.value.Some? ==> r.value == Some(extractOne(prompt, districts).value.choice)
  {
    if prompt == "" then Returns(None)
    else
      match extractOne(prompt, districts)
      case None => RaisesTypeError
      case Some(m) => if m.score > DistrictThreshold then Returns(Some(m.choice)) else Returns(None)
  }

  /** With a well-behaved matcher and a non-empty district list the call
      never raises, and a recognised district is one of the listed ones. */
  lemma RecognisedDistrictIsListed(prompt: string, districts: seq<string>, extractOne: ExtractOne)
    requires PicksFromChoices(extractOne)
    requires districts != []
    ensures VerifyDistrict(prompt, districts, extractOne).Returns?
    ensures VerifyDistrict(prompt, districts, extractOne).value.Some? ==>
              VerifyDistrict(prompt, districts, extractOne).value.value in districts
  {
    if prompt != "" {
      assert extractOne(prompt, districts).Some?;
    }
  }
}
