/**
 The entities the catalog is made of: the requested gender, the service's
 gender classification, and a voice descriptor.
 */
module Voices {

  /** The gender a user asks for on the command line. */
  datatype Gender = Male | Female | Neutral

  /** The service's gender classification of a voice. */
  datatype SsmlGender = Unspecified | SsmlMale | SsmlFemale | SsmlNeutral

  datatype Voice = Voice(name: string, languageCodes: seq<string>, gender: SsmlGender)

  /** The mapping from a requested gender to the service's enum, used both by
      the catalog filter and when the synthesis request is built. */
  function ToSsml(g: Gender): (s: SsmlGender)
    ensures s != Unspecified
  {
    match g
    case Male => SsmlMale
    case Female => SsmlFemale
    case Neutral => SsmlNeutral
  }

  /** Distinct requested genders reach the service as distinct genders. */
  lemma ToSsmlInjective(g: Gender, h: Gender)
    ensures ToSsml(g) == ToSsml(h) <==> g == h
  {
  }
}
