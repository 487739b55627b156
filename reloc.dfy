/** The three relocation table builders. Each is a DeferredMap keyed by the
    relocation's source address: RelocSectionContent for references out of
    code, RelocSectionContent2 and DataRelocSectionContent for references
    out of data. A row records what its target will be computed from; the
    target's final address is only read when the table is serialised. */
module Relocations {
  import opened Deferred

  /** The external Chunk a reference starts from, with its address. */
  datatype Chunk =
    | InstructionChunk(address: Address)
    | DataVariableChunk(address: Address)
    | OtherChunk(address: Address)

  /** The external Link kinds, as a closed union. */
  datatype Link =
    | NormalLink(target: Address)
    | DataOffsetLink(section: string, offset: nat)
    | PLTLink(symbol: string)
    | SymbolOnlyLink(symbol: string)
    | LDSOLoaderLink(symbol: string)
    | TLSDataOffsetLink(symbol: string, offset: nat)
    | UnresolvedLink

  /** The deferred content of one relocation row. */
  datatype RelaRow =
    | CodeRef(link: Link)                                // from an instruction
    | DataRef(target: Address, targetSection: string)    // data to data
    | UndefinedRef(symbol: string)                       // data to a loader symbol
    | TLSOffsetRef(link: Link)                           // data to a TLS offset

  type RelocRows = seq<Entry<Address, RelaRow>>

  /** The Link kinds RelocSectionContent has a case for (addConcrete). */
  predicate SupportedCodeLink(link: Link) {
    link.DataOffsetLink? || link.PLTLink? || link.SymbolOnlyLink?
  }

  /** RelocSectionContent::add's dispatch: only an instruction source with a
      supported Link gives a row, keyed by the instruction's address. */
  function CodeRow(source: Chunk, link: Link): (r: Result<Entry<Address, RelaRow>>)
    ensures r.Ok? <==> source.InstructionChunk? && SupportedCodeLink(link)
    ensures r.Err? ==> r.error == UnsupportedLink
    ensures r.Ok? ==> r.value.key == source.address && r.value.value.CodeRef? && r.value.value.link == link
  {
    match source
    case InstructionChunk(a) =>
      (match link
       case DataOffsetLink(_, _) => Ok(Entry(a, CodeRef(link)))
       case PLTLink(_) => Ok(Entry(a, CodeRef(link)))
       case SymbolOnlyLink(_) => Ok(Entry(a, CodeRef(link)))
       case _ => Err(UnsupportedLink))
    case _ => Err(UnsupportedLink)
  }

  /** RelocSectionContent: relocations for references out of code. */
  class RelocSectionContent {
    var rows: RelocRows

    ghost predicate Valid()
      reads this
    {
      UniqueKeys(rows)
    }

    constructor ()
      ensures Valid() && rows == []
    {
      rows := [];
    }

    /** add: a row for `link` out of `source`. Fails for a source or Link
        kind without a case, and for a source address already present. */
    method Add(source: Chunk, link: Link) returns (r: Result<Address>)
      requires Valid()
      modifies this
      ensures Valid()
      ensures r.Err? ==> rows == old(rows)
      ensures !(source.InstructionChunk? && SupportedCodeLink(link)) ==> r == Err(UnsupportedLink)
      ensures source.InstructionChunk? && SupportedCodeLink(link) ==>
        && (r.Err? <==> HasKey(old(rows), source.address))
        && (r.Err? ==> r.error == DuplicateKey)
        && (r.Ok? ==> r.value == source.address && rows == old(rows) + [Entry(source.address, CodeRef(link))])
    {
      var row := CodeRow(source, link);
      if row.Err? {
        return Err(row.error);
      }
      var added := Deferred.Add(rows, row.value.key, row.value.value);
      if added.Err? {
        return Err(added.error);
      }
      rows := added.value;
      r := Ok(source.address);
    }
  }

  /** RelocSectionContent2: relocations for data-to-data references. */
  class RelocSectionContent2 {
    var rows: RelocRows

    ghost predicate Valid()
      reads this
    {
      UniqueKeys(rows)
    }

    constructor ()
      ensures Valid() && rows == []
    {
      rows := [];
    }

    /** addDataRef: a row at `source` pointing at `target` inside
        `targetSection`; a source address already present is rejected. */
    method AddDataRef(source: Address, target: Address, targetSection: string) returns (r: Result<Address>)
      requires Valid()
      modifies this
      ensures Valid()
      ensures r.Err? <==> HasKey(old(rows), source)
      ensures r.Err? ==> r.error == DuplicateKey && rows == old(rows)
      ensures r.Ok? ==> r.value == source && rows == old(rows) + [Entry(source, DataRef(target, targetSection))]
    {
      var added := Deferred.Add(rows, source, DataRef(target, targetSection));
      if added.Err? {
        return Err(added.error);
      }
      rows := added.value;
      r := Ok(source);
    }
  }

  /** DataRelocSectionContent: relocations out of data that the loader
      resolves: undefined symbols, data references and TLS offsets. */
  class DataRelocSectionContent {
    var rows: RelocRows

    ghost predicate Valid()
      reads this
    {
      UniqueKeys(rows)
    }

    constructor ()
      ensures Valid() && rows == []
    {
      rows := [];
    }

    /** Registers one row; a source address already present is rejected. */
    method Register(source: Address, row: RelaRow) returns (r: Result<Address>)
      requires Valid()
      modifies this
      ensures Valid()
      ensures r.Err? <==> HasKey(old(rows), source)
      ensures r.Err? ==> r.error == DuplicateKey && rows == old(rows)
      ensures r.Ok? ==> r.value == source && rows == old(rows) + [Entry(source, row)]
    {
      var added := Deferred.Add(rows, source, row);
      if added.Err? {
        return Err(added.error);
      }
      rows := added.value;
      r := Ok(source);
    }

    /** addUndefinedRef: the variable at `variable` refers to a symbol the
        loader must supply. */
    method AddUndefinedRef(variable: Chunk, link: Link) returns (r: Result<Address>)
      requires Valid()
      requires variable.DataVariableChunk? && link.LDSOLoaderLink?
      modifies this
      ensures Valid()
      ensures r.Err? <==> HasKey(old(rows), variable.address)
      ensures r.Err? ==> r.error == DuplicateKey && rows == old(rows)
      ensures r.Ok? ==> rows == old(rows) + [Entry(variable.address, UndefinedRef(link.symbol))]
    {
      r := Register(variable.address, UndefinedRef(link.symbol));
    }

    /** addDataRef: a row at `source` pointing at `target` inside
        `targetSection`. */
    method AddDataRef(source: Address, target: Address, targetSection: string) returns (r: Result<Address>)
      requires Valid()
      modifies this
      ensures Valid()
      ensures r.Err? <==> HasKey(old(rows), source)
      ensures r.Err? ==> r.error == DuplicateKey && rows == old(rows)
      ensures r.Ok? ==> rows == old(rows) + [Entry(source, DataRef(target, targetSection))]
    {
      r := Register(source, DataRef(target, targetSection));
    }

    /** addTLSOffsetRef: a row at `source` holding a thread-local offset. */
    method AddTLSOffsetRef(source: Address, link: Link) returns (r: Result<Address>)
      requires Valid()
      requires link.TLSDataOffsetLink?
      modifies this
      ensures Valid()
      ensures r.Err? <==> HasKey(old(rows), source)
      ensures r.Err? ==> r.error == DuplicateKey && rows == old(rows)
      ensures r.Ok? ==> rows == old(rows) + [Entry(source, TLSOffsetRef(link))]
    {
      r := Register(source, TLSOffsetRef(link));
    }
  }
}
