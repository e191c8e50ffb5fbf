/** `TileProcessorServiceRepository`
    (PS2MapTool/Services/TileProcessorServiceRepository.cs): at most one
    processor per image format. */
module TileProcessorRepository {
  import opened Wrappers

  /** `TileImageFormatType`. */
  datatype Format = Dds | Png

  datatype Repository<P> = Repository(processors: map<Format, P>)

  /** `Add` either throws `ArgumentException` or returns the new repository. */
  datatype AddOutcome<P> = AlreadyAdded | Added(repository: Repository<P>)

  function Add<P>(r: Repository<P>, format: Format, processor: P): (out: AddOutcome<P>)
    ensures out.AlreadyAdded? <==> Get(r, format).Some?
    ensures out.Added? ==> Get(out.repository, format) == Some(processor)
    ensures out.Added? ==> forall f | f != format :: Get(out.repository, f) == Get(r, f)
  {
    if format in r.processors then AlreadyAdded
    else Added(Repository(r.processors[format := processor]))
  }

  /** `Get`: the dictionary indexer; `None` is the `KeyNotFoundException`. */
  function Get<P>(r: Repository<P>, format: Format): (p: Option<P>)
    ensures p.Some? <==> format in r.processors
  {
    if format in r.processors then Some(r.processors[format]) else None
  }

  /** A format, once registered, keeps its first processor: a second `Add`
      for it is refused, and adding other formats leaves it alone. */
  lemma FirstRegistrationWins<P>(r: Repository<P>, format: Format, p: P, other: Format, q: P)
    requires Add(r, format, p).Added?
    ensures Add(Add(r, format, p).repository, format, q).AlreadyAdded?
    ensures other != format ==> var r2 := Add(Add(r, format, p).repository, other, q);
      r2.Added? ==> Get(r2.repository, format) == Some(p)
  {
  }
}
