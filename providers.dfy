/** The closed set of certificate providers and their identifiers in the configuration. */
module Providers {
  import opened Wrappers

  datatype Provider = Udemy | Cybrary | DeepLearningAi | LinkedInLearning

  /** The identifier a provider has in the provider list. */
  function Id(p: Provider): string
  {
    match p
    case Udemy => "udemy"
    case Cybrary => "cybrary"
    case DeepLearningAi => "deeplearningai"
    case LinkedInLearning => "linkedinlearning"
  }

  /** The provider an identifier names, if any; the source compares with string equality. */
  function ProviderOf(id: string): (r: Option<Provider>)
    ensures r.Some? ==> Id(r.value) == id
    ensures r.None? ==> forall p :: Id(p) != id
  {
    if id == "udemy" then Some(Udemy)
    else if id == "cybrary" then Some(Cybrary)
    else if id == "deeplearningai" then Some(DeepLearningAi)
    else if id == "linkedinlearning" then Some(LinkedInLearning)
    else None
  }

  /** Identifiers and providers correspond one to one. */
  lemma ProviderOfId(p: Provider)
    ensures ProviderOf(Id(p)) == Some(p)
  {
    match p
    case Udemy =>
    case Cybrary =>
    case DeepLearningAi =>
    case LinkedInLearning =>
  }
}
