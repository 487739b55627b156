/** The symbol table builder (SymbolTableContent) and the order of its rows
    (SymbolInTable). Rows are kept sorted by their key, so that the NULL row
    comes first, then section symbols, local symbols, undefined symbols and
    finally global symbols; firstGlobalIndex records where the globals begin,
    which is the symbol table header's sh_info (System V ABI, chapter 4,
    "Symbol Table": all local symbols precede the global ones). */
module SymbolTable {
  import opened Deferred

  /** SymbolInTable::type_t, in rank order. */
  datatype SymbolType = TypeNull | TypeSection | TypeLocal | TypeUndef | TypeGlobal

  function Rank(t: SymbolType): nat {
    match t
    case TypeNull => 0
    case TypeSection => 1
    case TypeLocal => 2
    case TypeUndef => 3
    case TypeGlobal => 4
  }

  datatype Binding = BindLocal | BindGlobal | BindWeak

  function BindingRank(b: Binding): nat {
    match b
    case BindLocal => 0
    case BindGlobal => 1
    case BindWeak => 2
  }

  /** An external Symbol; `id` stands for the object's identity. */
  datatype Symbol = Symbol(id: nat, name: string, binding: Binding)

  /** An external Function, seen only through the symbol it is defined by. */
  datatype Function = Function(name: string, symbol: Option<Symbol>)

  /** The key of one symbol table row; `sym` is None for the null row. */
  datatype SymbolInTable = SymbolInTable(kind: SymbolType, sym: Option<Symbol>)

  /** Strict lexicographic order on names. */
  predicate NameLess(a: string, b: string) {
    if |a| == 0 then |b| > 0
    else |b| > 0 && (a[0] < b[0] || (a[0] == b[0] && NameLess(a[1..], b[1..])))
  }

  /** Tie-break between two symbols of the same type: the null reference
      first, then by name, then by identity, then by binding. */
  predicate SymLess(a: Option<Symbol>, b: Option<Symbol>) {
    match (a, b)
    case (None, None) => false
    case (None, Some(_)) => true
    case (Some(_), None) => false
    case (Some(x), Some(y)) =>
      || NameLess(x.name, y.name)
      || (x.name == y.name && x.id < y.id)
      || (x.name == y.name && x.id == y.id && BindingRank(x.binding) < BindingRank(y.binding))
  }

  /** SymbolInTable::operator<: rank of the type first, tie-break second. */
  predicate Less(a: SymbolInTable, b: SymbolInTable) {
    Rank(a.kind) < Rank(b.kind) || (a.kind == b.kind && SymLess(a.sym, b.sym))
  }

  lemma {:induction false} NameLessIrreflexive(a: string)
    ensures !NameLess(a, a)
  {
    if |a| > 0 {
      NameLessIrreflexive(a[1..]);
    }
  }

  lemma {:induction false} NameLessTransitive(a: string, b: string, c: string)
    requires NameLess(a, b) && NameLess(b, c)
    ensures NameLess(a, c)
  {
    if |a| > 0 && a[0] == b[0] && b[0] == c[0] {
      NameLessTransitive(a[1..], b[1..], c[1..]);
    }
  }

  lemma {:induction false} NameLessTotal(a: string, b: string)
    requires a != b
    ensures NameLess(a, b) || NameLess(b, a)
  {
    if |a| > 0 && |b| > 0 && a[0] == b[0] {
      assert a == [a[0]] + a[1..] && b == [b[0]] + b[1..];
      NameLessTotal(a[1..], b[1..]);
    }
  }

  /** operator< is a strict order: never a < a ... */
  lemma LessIrreflexive(a: SymbolInTable)
    ensures !Less(a, a)
  {
    if a.sym.Some? {
      NameLessIrreflexive(a.sym.value.name);
    }
  }

  /** ... it is transitive ... */
  lemma LessTransitive(a: SymbolInTable, b: SymbolInTable, c: SymbolInTable)
    requires Less(a, b) && Less(b, c)
    ensures Less(a, c)
  {
    if a.kind == b.kind == c.kind && a.sym.Some? && b.sym.Some? && c.sym.Some? {
      var x, y, z := a.sym.value, b.sym.value, c.sym.value;
      if NameLess(x.name, y.name) && NameLess(y.name, z.name) {
        NameLessTransitive(x.name, y.name, z.name);
      }
    }
  }

  /** ... and total: two distinct keys are never tied. */
  lemma LessTotal(a: SymbolInTable, b: SymbolInTable)
    requires a != b
    ensures Less(a, b) || Less(b, a)
  {
    if a.kind == b.kind && a.sym.Some? && b.sym.Some? {
      var x, y := a.sym.value, b.sym.value;
      if x.name != y.name {
        NameLessTotal(x.name, y.name);
      }
    }
  }

  /** Rows strictly ascending in operator< order. */
  predicate Sorted(rows: seq<SymbolInTable>) {
    forall i, j :: 0 <= i < j < |rows| ==> Less(rows[i], rows[j])
  }

  /** The position a new key takes in a sorted table (the std::map insert). */
  function InsertSorted(rows: seq<SymbolInTable>, key: SymbolInTable): (r: seq<SymbolInTable>)
    ensures |r| == |rows| + 1
  {
    if rows == [] || Less(key, rows[0]) then [key] + rows
    else [rows[0]] + InsertSorted(rows[1..], key)
  }

  /** Inserting adds exactly the new key: the result is a permutation of the
      old rows plus the key. */
  lemma {:induction false} InsertSortedElements(rows: seq<SymbolInTable>, key: SymbolInTable)
    ensures multiset(InsertSorted(rows, key)) == multiset(rows) + multiset{key}
  {
    if rows != [] && !Less(key, rows[0]) {
      InsertSortedElements(rows[1..], key);
      assert rows == [rows[0]] + rows[1..];
    }
  }

  /** Inserting a new key keeps the table sorted. */
  lemma {:induction false} InsertSortedKeepsOrder(rows: seq<SymbolInTable>, key: SymbolInTable)
    requires Sorted(rows) && key !in rows
    ensures Sorted(InsertSorted(rows, key))
  {
    if rows == [] {
    } else if Less(key, rows[0]) {
      var r := [key] + rows;
      forall i, j | 0 <= i < j < |r| ensures Less(r[i], r[j]) {
        if i == 0 && j > 1 {
          LessTransitive(key, rows[0], rows[j - 1]);
        }
      }
    } else {
      LessTotal(key, rows[0]);
      InsertSortedKeepsOrder(rows[1..], key);
      InsertSortedElements(rows[1..], key);
      var tail := InsertSorted(rows[1..], key);
      var r := [rows[0]] + tail;
      forall j | 0 <= j < |tail| ensures Less(rows[0], tail[j]) {
        assert tail[j] in multiset(tail);
        assert tail[j] == key || tail[j] in rows[1..];
      }
    }
  }

  /** A key ranked after every row goes at the end of the table. */
  lemma {:induction false} InsertSortedAfterAll(rows: seq<SymbolInTable>, key: SymbolInTable)
    requires forall i :: 0 <= i < |rows| ==> Less(rows[i], key)
    ensures InsertSorted(rows, key) == rows + [key]
  {
    if rows != [] {
      LessTransitiveAsym(rows[0], key);
      InsertSortedAfterAll(rows[1..], key);
      assert rows == [rows[0]] + rows[1..];
    }
  }

  /** operator< is asymmetric. */
  lemma LessTransitiveAsym(a: SymbolInTable, b: SymbolInTable)
    requires Less(a, b)
    ensures !Less(b, a)
  {
    if Less(b, a) {
      LessTransitive(a, b, a);
      LessIrreflexive(a);
    }
  }

  /** The number of rows that are not GLOBAL. */
  function CountNonGlobal(rows: seq<SymbolInTable>): (n: nat)
    ensures n <= |rows|
  {
    if rows == [] then 0
    else (if rows[0].kind != TypeGlobal then 1 else 0) + CountNonGlobal(rows[1..])
  }

  /** In a sorted table, the non-GLOBAL rows are exactly the first
      CountNonGlobal(rows) rows, so that count is the index of the first
      GLOBAL row (or the table length when there is none). */
  lemma {:induction false} GlobalBoundary(rows: seq<SymbolInTable>)
    requires Sorted(rows)
    ensures forall i :: 0 <= i < CountNonGlobal(rows) ==> rows[i].kind != TypeGlobal
    ensures forall i :: CountNonGlobal(rows) <= i < |rows| ==> rows[i].kind == TypeGlobal
  {
    if rows != [] {
      GlobalBoundary(rows[1..]);
      if rows[0].kind == TypeGlobal {
        // everything after a GLOBAL row is ranked at least as high
        forall i | 1 <= i < |rows| ensures rows[i].kind == TypeGlobal {
          assert Less(rows[0], rows[i]);
        }
        assert forall i :: 0 <= i < |rows[1..]| ==> rows[1..][i].kind == TypeGlobal;
      }
    }
  }

  /** Every row ranked below GLOBAL precedes every GLOBAL row. */
  lemma LocalsPrecedeGlobals(rows: seq<SymbolInTable>, i: nat, j: nat)
    requires Sorted(rows) && i < |rows| && j < |rows|
    requires rows[i].kind != TypeGlobal && rows[j].kind == TypeGlobal
    ensures i < j && i < CountNonGlobal(rows) <= j
  {
    GlobalBoundary(rows);
  }

  /** The null key is below every other key, so a sorted table that holds
      it holds it at index 0. */
  lemma {:induction false} NullRowFirst(rows: seq<SymbolInTable>)
    requires Sorted(rows) && SymbolInTable(TypeNull, None) in rows
    ensures rows[0] == SymbolInTable(TypeNull, None)
  {
    var i :| 0 <= i < |rows| && rows[i] == SymbolInTable(TypeNull, None);
    // nothing is below the null key, so no row can precede it
    assert !Less(rows[0], rows[i]);
  }

  /** CountNonGlobal grows by one exactly when the new key is not GLOBAL. */
  lemma {:induction false} CountNonGlobalInsert(rows: seq<SymbolInTable>, key: SymbolInTable)
    ensures CountNonGlobal(InsertSorted(rows, key))
         == CountNonGlobal(rows) + (if key.kind != TypeGlobal then 1 else 0)
  {
    if rows != [] && !Less(key, rows[0]) {
      CountNonGlobalInsert(rows[1..], key);
      assert InsertSorted(rows, key)[1..] == InsertSorted(rows[1..], key);
    } else {
      assert ([key] + rows)[1..] == rows;
    }
  }

  /** SymbolTableContent::getTypeFor: a function whose symbol has local
      binding gets a LOCAL row, any other a GLOBAL row. */
  function TypeFor(func: Function): (t: SymbolType)
    ensures t == TypeLocal || t == TypeGlobal
    ensures t == TypeLocal <==> func.symbol.Some? && func.symbol.value.binding == BindLocal
  {
    if func.symbol.Some? && func.symbol.value.binding == BindLocal then TypeLocal else TypeGlobal
  }

  /** getTypeFor decides which side of the local/global boundary a
      function's row lands on: in a sorted table, that row sits below
      CountNonGlobal (among the locals) exactly when the function's symbol
      has local binding, and at or above it (among the globals) otherwise. */
  lemma TypeForPlacesRow(rows: seq<SymbolInTable>, func: Function, sym: Symbol, i: nat)
    requires Sorted(rows) && i < |rows| && rows[i] == SymbolInTable(TypeFor(func), Some(sym))
    ensures i < CountNonGlobal(rows) <==> func.symbol.Some? && func.symbol.value.binding == BindLocal
    ensures i >= CountNonGlobal(rows) <==> !(func.symbol.Some? && func.symbol.value.binding == BindLocal)
  {
    GlobalBoundary(rows);
  }

  class SymbolTableContent {
    /** The rows' keys, in table order. */
    var rows: seq<SymbolInTable>
    /** The keys of the section-symbol rows, in the order they were added. */
    var sectionSymbols: seq<SymbolInTable>
    var firstGlobalIndex: int

    ghost predicate Valid()
      reads this
    {
      && Sorted(rows)
      && firstGlobalIndex == CountNonGlobal(rows)
      && forall k :: 0 <= k < |sectionSymbols| ==>
           sectionSymbols[k] in rows && sectionSymbols[k].kind == TypeSection
    }

    constructor ()
      ensures Valid()
      ensures rows == [] && sectionSymbols == [] && firstGlobalIndex == 0
    {
      rows := [];
      sectionSymbols := [];
      firstGlobalIndex := 0;
    }

    /** Registers one key: a key already in the table is rejected, a new one
        takes its place in operator< order and moves the global boundary
        when it is not GLOBAL. */
    method Declare(key: SymbolInTable) returns (r: Result<SymbolInTable>)
      requires Valid()
      modifies this
      ensures Valid()
      ensures sectionSymbols == old(sectionSymbols)
      ensures r == if key in old(rows) then Err(DuplicateKey) else Ok(key)
      ensures rows == if key in old(rows) then old(rows) else InsertSorted(old(rows), key)
      ensures key in rows
      ensures firstGlobalIndex == old(firstGlobalIndex) + (if r.Ok? && key.kind != TypeGlobal then 1 else 0)
    {
      if key in rows {
        return Err(DuplicateKey);
      }
      InsertSortedKeepsOrder(rows, key);
      InsertSortedElements(rows, key);
      CountNonGlobalInsert(rows, key);
      ghost var before := rows;
      rows := InsertSorted(rows, key);
      assert multiset(rows) == multiset(before) + multiset{key};
      forall k | 0 <= k < |sectionSymbols| ensures sectionSymbols[k] in rows {
        assert sectionSymbols[k] in multiset(before);
        assert sectionSymbols[k] in multiset(rows);
      }
      assert key in multiset(rows);
      if key.kind != TypeGlobal {
        firstGlobalIndex := firstGlobalIndex + 1;
      }
      r := Ok(key);
    }

    /** addNullSymbol: the all-zero row that ELF requires at index 0. */
    method AddNullSymbol() returns (r: Result<SymbolInTable>)
      requires Valid()
      modifies this
      ensures Valid()
      ensures var key := SymbolInTable(TypeNull, None);
        && r == (if key in old(rows) then Err(DuplicateKey) else Ok(key))
        && rows == (if key in old(rows) then old(rows) else InsertSorted(old(rows), key))
        && firstGlobalIndex == old(firstGlobalIndex) + (if r.Ok? then 1 else 0)
      ensures sectionSymbols == old(sectionSymbols)
      ensures rows[0] == SymbolInTable(TypeNull, None)
    {
      r := Declare(SymbolInTable(TypeNull, None));
      NullRowFirst(rows);
    }

    /** addSectionSymbol: a SECTION row, remembered in sectionSymbols. */
    method AddSectionSymbol(sym: Symbol) returns (r: Result<SymbolInTable>)
      requires Valid()
      modifies this
      ensures Valid()
      ensures var key := SymbolInTable(TypeSection, Some(sym));
        && r == (if key in old(rows) then Err(DuplicateKey) else Ok(key))
        && rows == (if key in old(rows) then old(rows) else InsertSorted(old(rows), key))
        && firstGlobalIndex == old(firstGlobalIndex) + (if r.Ok? then 1 else 0)
        && sectionSymbols == old(sectionSymbols) + (if r.Ok? then [key] else [])
    {
      var key := SymbolInTable(TypeSection, Some(sym));
      r := Declare(key);
      if r.Ok? {
        sectionSymbols := sectionSymbols + [key];
      }
    }

    /** addSymbol: a row for a function, LOCAL or GLOBAL by getTypeFor. */
    method AddSymbol(func: Function, sym: Symbol) returns (r: Result<SymbolInTable>)
      requires Valid()
      modifies this
      ensures Valid()
      ensures var key := SymbolInTable(TypeFor(func), Some(sym));
        && r == (if key in old(rows) then Err(DuplicateKey) else Ok(key))
        && rows == (if key in old(rows) then old(rows) else InsertSorted(old(rows), key))
        && firstGlobalIndex == old(firstGlobalIndex) + (if r.Ok? && key.kind == TypeLocal then 1 else 0)
      ensures sectionSymbols == old(sectionSymbols)
      ensures r.Ok? ==> forall i :: 0 <= i < |rows| && rows[i] == r.value ==>
                          (i < firstGlobalIndex <==> func.symbol.Some? && func.symbol.value.binding == BindLocal)
    {
      r := Declare(SymbolInTable(TypeFor(func), Some(sym)));
      forall i | 0 <= i < |rows| && rows[i] == SymbolInTable(TypeFor(func), Some(sym))
        ensures i < firstGlobalIndex <==> func.symbol.Some? && func.symbol.value.binding == BindLocal
      {
        TypeForPlacesRow(rows, func, sym, i);
      }
    }

    /** addUndefinedSymbol: an UNDEF row for a symbol defined elsewhere. */
    method AddUndefinedSymbol(sym: Symbol) returns (r: Result<SymbolInTable>)
      requires Valid()
      modifies this
      ensures Valid()
      ensures var key := SymbolInTable(TypeUndef, Some(sym));
        && r == (if key in old(rows) then Err(DuplicateKey) else Ok(key))
        && rows == (if key in old(rows) then old(rows) else InsertSorted(old(rows), key))
        && firstGlobalIndex == old(firstGlobalIndex) + (if r.Ok? then 1 else 0)
      ensures sectionSymbols == old(sectionSymbols)
    {
      r := Declare(SymbolInTable(TypeUndef, Some(sym)));
    }

    /** indexOfSectionSymbol: the row index of the named section's symbol,
        or NotFound when no section symbol has that name. */
    method IndexOfSectionSymbol(section: string) returns (r: Result<nat>)
      ensures r.Ok? ==> r.value < |rows| && rows[r.value].kind == TypeSection
                        && rows[r.value].sym.Some? && rows[r.value].sym.value.name == section
      ensures r.Err? ==> r.error == NotFound
      ensures r.Err? <==> forall i :: 0 <= i < |rows| ==>
                            !(rows[i].kind == TypeSection && rows[i].sym.Some? && rows[i].sym.value.name == section)
    {
      var i := 0;
      while i < |rows|
        invariant 0 <= i <= |rows|
        invariant forall k :: 0 <= k < i ==>
                    !(rows[k].kind == TypeSection && rows[k].sym.Some? && rows[k].sym.value.name == section)
      {
        if rows[i].kind == TypeSection && rows[i].sym.Some? && rows[i].sym.value.name == section {
          return Ok(i);
        }
        i := i + 1;
      }
      return Err(NotFound);
    }

    /** getFirstGlobalIndex: the local/global boundary. */
    function GetFirstGlobalIndex(): (n: int)
      reads this
      requires Valid()
      ensures 0 <= n <= |rows|
      ensures forall i :: 0 <= i < n ==> rows[i].kind != TypeGlobal
      ensures forall i :: n <= i < |rows| ==> rows[i].kind == TypeGlobal
    {
      GlobalBoundary(rows);
      firstGlobalIndex
    }
  }

  /** The table built by: null, section S1, LOCAL sym1, UNDEF sym2,
      GLOBAL sym3 is [NULL, S1, sym1, sym2, sym3] with boundary 4. */
  lemma DeclarationScenario(s1: Symbol, sym1: Symbol, sym2: Symbol, sym3: Symbol)
    requires sym1.binding == BindLocal && sym3.binding != BindLocal
    ensures var k0 := SymbolInTable(TypeNull, None);
      var k1 := SymbolInTable(TypeSection, Some(s1));
      var k2 := SymbolInTable(TypeFor(Function("F1", Some(sym1))), Some(sym1));
      var k3 := SymbolInTable(TypeUndef, Some(sym2));
      var k4 := SymbolInTable(TypeFor(Function("F2", Some(sym3))), Some(sym3));
      var rows := InsertSorted(InsertSorted(InsertSorted(InsertSorted([k0], k1), k2), k3), k4);
      && rows == [k0, k1, k2, k3, k4]
      && [rows[0].kind, rows[1].kind, rows[2].kind, rows[3].kind, rows[4].kind]
         == [TypeNull, TypeSection, TypeLocal, TypeUndef, TypeGlobal]
      && CountNonGlobal(rows) == 4
  {
    assert TypeFor(Function("F1", Some(sym1))) == TypeLocal;
    assert TypeFor(Function("F2", Some(sym3))) == TypeGlobal;
    var k0 := SymbolInTable(TypeNull, None);
    var k1 := SymbolInTable(TypeSection, Some(s1));
    var k2 := SymbolInTable(TypeLocal, Some(sym1));
    var k3 := SymbolInTable(TypeUndef, Some(sym2));
    var k4 := SymbolInTable(TypeGlobal, Some(sym3));
    assert InsertSorted([k0], k1) == [k0, k1] by {
      InsertSortedAfterAll([k0], k1);
    }
    assert InsertSorted([k0, k1], k2) == [k0, k1, k2] by {
      InsertSortedAfterAll([k0, k1], k2);
    }
    assert InsertSorted([k0, k1, k2], k3) == [k0, k1, k2, k3] by {
      InsertSortedAfterAll([k0, k1, k2], k3);
    }
    assert InsertSorted([k0, k1, k2, k3], k4) == [k0, k1, k2, k3, k4] by {
      InsertSortedAfterAll([k0, k1, k2, k3], k4);
    }
    var rows := InsertSorted(InsertSorted(InsertSorted(InsertSorted([k0], k1), k2), k3), k4);
    assert rows == [k0, k1, k2, k3, k4];
    assert [k0, k1, k2, k3, k4][1..] == [k1, k2, k3, k4];
    assert [k1, k2, k3, k4][1..] == [k2, k3, k4];
    assert [k2, k3, k4][1..] == [k3, k4];
    assert [k3, k4][1..] == [k4];
    assert CountNonGlobal([k4]) == 0;
    assert CountNonGlobal([k3, k4]) == 1;
    assert CountNonGlobal([k2, k3, k4]) == 2;
    assert CountNonGlobal([k1, k2, k3, k4]) == 3;
  }
}
