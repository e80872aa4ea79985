/**
  Shell-style globs as the backup target uses them. Which texts parse as a glob
  and which paths a glob matches belong to the globset crate; the model takes
  both as an engine parameter, so every result here holds for any engine.
 */
module Globs {
  import opened Wrappers
  import opened Paths

  /** The globset crate seen from outside: which texts `Glob::new` accepts, and `is_match`. */
  datatype GlobEngine = GlobEngine(valid: string -> bool, matches: (string, Path) -> bool)

  /** A parsed glob (`globset::Glob`, and the serde wrapper `MyGlob` around it), known by its text. */
  datatype Glob = Glob(text: string)

  /** `globset::Error`: the text that did not parse. */
  datatype GlobError = GlobError(glob: string)

  /** The serde error the deserialiser reports for text that is not a glob. */
  datatype DeError = Custom(msg: string)

  const NotGlobMessage := "String not glob"

  /** `Glob::new`: parse `text`, keeping it as the glob's text. */
  function GlobNew(e: GlobEngine, text: string): (r: Result<Glob, GlobError>)
    ensures r.Ok? <==> e.valid(text)
    ensures r.Ok? ==> r.value.text == text
    ensures r.Err? ==> r.error.glob == text
  {
    if e.valid(text) then Ok(Glob(text)) else Err(GlobError(text))
  }

  /**
    `MyGlob::serialize`: a glob is written as its text, which any engine that
    accepted the glob parses back to that same glob.
   */
  function Serialize(g: Glob): (r: string)
    ensures forall e: GlobEngine | e.valid(g.text) :: GlobNew(e, r) == Ok(g)
  {
    g.text
  }

  /**
    `MyGlobVisitor::visit_str`: re-parse the text as it stands, adding nothing;
    text that does not parse is refused with a custom serde error.
   */
  function Deserialize(e: GlobEngine, s: string): (r: Result<Glob, DeError>)
    ensures r.Ok? <==> e.valid(s)
    ensures r.Ok? ==> Serialize(r.value) == s
    ensures r.Err? ==> r.error == Custom(NotGlobMessage)
  {
    match GlobNew(e, s)
    case Ok(g) => Ok(g)
    case Err(_) => Err(Custom(NotGlobMessage))
  }

  /** A glob that parsed once comes back unchanged from its serialised text. */
  lemma SerializeRoundTrip(e: GlobEngine, g: Glob)
    requires e.valid(g.text)
    ensures Deserialize(e, Serialize(g)) == Ok(g)
  {
  }

  /** A compiled `GlobSet`: the globs added to its builder, in order. */
  datatype GlobSet = GlobSet(globs: seq<Glob>)

  /** `GlobSet::is_match`: some glob of the set matches `p`. */
  predicate IsMatch(e: GlobEngine, gs: GlobSet, p: Path): (r: bool)
    ensures r <==> exists g | g in gs.globs :: e.matches(g.text, p)
    ensures gs.globs == [] ==> !r
  {
    exists i | 0 <= i < |gs.globs| :: e.matches(gs.globs[i].text, p)
  }
}
