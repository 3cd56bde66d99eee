/** convertToWithoutRowidTable (build.c): the primary key index of a WITHOUT ROWID table comes to
    hold all the columns, and every other index the primary key. */
module WithoutRowid {
  import opened KeyColumns
  import opened Memory
  import opened Sequences

  /** hasColumn */
  method HasColumn(columns: array<int>, n: nat, x: int) returns (found: bool)
    requires n <= columns.Length
    ensures found <==> x in columns[..n]
  {
    var k: nat := 0;
    while k < n
      invariant k <= n && x !in columns[..k]
    {
      if x == columns[k] {
        return true;
      }
      k := k + 1;
    }
    found := false;
  }

  predicate AsCreated(x: Index, key: seq<int>)
    reads x, x.columns
  {
    x.Created() && x.Key() == key
  }

  /** The index keeps its key, followed by the columns of the primary key that it lacked. */
  predicate Extended(x: Index, key: seq<int>, pkey: seq<int>)
    reads x, x.columns
  {
    x.Valid() && x.nKeyCol == |key| && x.Columns() == key + Missing(key, pkey, |pkey|)
  }

  class Index {
    var columns: array<int>
    var nColumn: nat
    var nKeyCol: nat
    var resized: bool
    const primary: bool

    constructor (key: seq<int>, primary: bool)
      requires 0 < |key|
      ensures Created() && Key() == key && this.primary == primary && fresh(columns)
    {
      this.primary := primary;
      nKeyCol := |key|;
      nColumn := |key| + 1;
      resized := false;
      columns := new int[|key| + 1](k => if 0 <= k < |key| then key[k] else -1);
      new;
      assert columns[..|key|] == key;
    }

    predicate Valid()
      reads this
    {
      nKeyCol <= nColumn <= columns.Length
    }

    /** aiColumn[0..nColumn-1] */
    function Columns(): seq<int>
      requires Valid()
      reads this, columns
    {
      columns[..nColumn]
    }

    function Key(): seq<int>
      requires Valid()
      reads this, columns
    {
      columns[..nKeyCol]
    }

    /** As an index of a rowid table is created: its key, and a slot for the rowid. */
    predicate Created()
      reads this
    {
      Valid() && 0 < nKeyCol && nColumn == nKeyCol + 1 && !resized
    }

    /** resizeIndexObject, when r allocation requests have been made before. */
    method Resize(n: nat, memory: Requests, r: nat) returns (ok: bool, q: nat)
      requires Valid() && (nColumn < n ==> !resized)
      modifies this
      ensures Valid() && nKeyCol == old(nKeyCol)
      ensures ok == (n <= old(nColumn) || memory(r)) && q == if n <= old(nColumn) then r else r + 1
      ensures if ok && old(nColumn) < n then fresh(columns) && resized
        else columns == old(columns) && resized == old(resized)
      ensures nColumn == if ok && old(nColumn) < n then n else old(nColumn)
      ensures Columns()[..old(nColumn)] == old(Columns())
    {
      if n <= nColumn {
        return true, r;
      }
      ok, q := memory(r), r + 1;
      if !ok {
        return;
      }
      var more := new int[n];
      forall k | 0 <= k < nColumn {
        more[k] := columns[k];
      }
      columns := more;
      nColumn := n;
      resized := true;
    }

    /** The columns repeated in the key are removed from it in place. */
    method RemoveRepeats()
      requires Created()
      modifies this`nColumn, this`nKeyCol, columns
      ensures Created() && Key() == Distinct(old(Key()), old(nKeyCol))
    {
      ghost var key := Key();
      var i: nat, j: nat := 1, 1;
      assert Distinct(key, 1) == columns[..1];
      while i < nKeyCol
        invariant 1 <= j <= i <= nKeyCol == |key| && nKeyCol < columns.Length
        invariant nColumn == nKeyCol + 1 - (i - j)
        invariant columns[..j] == Distinct(key, i)
        invariant forall k :: i <= k < nKeyCol ==> columns[k] == key[k]
      {
        var found := HasColumn(columns, j, columns[i]);
        if found {
          nColumn := nColumn - 1;
        } else {
          columns[j] := columns[i];
          j := j + 1;
        }
        i := i + 1;
      }
      assert key == key[..nKeyCol];
      nKeyCol := j;
    }

    /** How many columns of the primary key this index lacks. */
    method CountMissing(pk: Index) returns (n: nat)
      requires Valid() && pk.Valid()
      ensures n == |Missing(Key(), pk.Key(), pk.nKeyCol)|
    {
      n := 0;
      var i: nat := 0;
      while i < pk.nKeyCol
        invariant i <= pk.nKeyCol && n == |Missing(Key(), pk.Key(), i)|
      {
        var found := HasColumn(columns, nKeyCol, pk.columns[i]);
        if !found {
          n := n + 1;
        }
        i := i + 1;
      }
    }

    /** The rowid slot makes way for the columns of the primary key that this index lacks. */
    method AddKeyOf(pk: Index, memory: Requests, r: nat) returns (ok: bool, q: nat)
      requires Created() && pk.Valid() && pk != this && pk.columns != columns
      modifies this, columns
      ensures Valid() && nKeyCol == old(nKeyCol)
      ensures columns == old(columns) || fresh(columns)
      ensures r <= q && (Plenty(memory, r) ==> ok)
      ensures ok ==> Columns() == old(Key()) + Missing(old(Key()), pk.Key(), pk.nKeyCol)
    {
      ghost var key, pkey := Key(), pk.Key();
      var n := CountMissing(pk);
      if n == 0 {
        nColumn := nKeyCol;
        return true, r;
      }
      ok, q := Resize(nKeyCol + n, memory, r);
      if !ok {
        return;
      }
      assert Key() == key by {
        assert Key() == Columns()[..old(nColumn)][..nKeyCol];
      }
      FillKeyOf(pk, n);
    }

    method FillKeyOf(pk: Index, n: nat)
      requires Valid() && nColumn == nKeyCol + n && pk.Valid() && pk != this && pk.columns != columns
      requires n == |Missing(Key(), pk.Key(), pk.nKeyCol)|
      modifies columns
      ensures Key() == old(Key()) && Columns() == old(Key()) + Missing(old(Key()), pk.Key(), pk.nKeyCol)
    {
      ghost var key, pkey := Key(), pk.Key();
      var i: nat, j: nat := 0, nKeyCol;
      while i < pk.nKeyCol
        invariant i <= pk.nKeyCol && nKeyCol <= j <= nColumn && pk.Key() == pkey
        invariant Key() == key && columns[nKeyCol..j] == Missing(key, pkey, i)
      {
        MissingGrows(key, pkey, i + 1, pk.nKeyCol);
        var found := HasColumn(columns, nKeyCol, pk.columns[i]);
        if !found {
          columns[j] := pk.columns[i];
          j := j + 1;
        }
        i := i + 1;
      }
      assert nColumn >= nKeyCol + n;
      assert nColumn >= j;
    }

    /** The primary key index gets all the other columns of the table. */
    method AddAllColumns(nCol: nat, memory: Requests, r: nat) returns (ok: bool, q: nat)
      requires Created() && NoRepeats(Key()) && InTable(Key(), nCol)
      modifies this, columns
      ensures Valid() && nKeyCol == old(nKeyCol) && (columns == old(columns) || fresh(columns))
      ensures r <= q && (Plenty(memory, r) ==> ok)
      ensures ok ==> Key() == old(Key()) && Columns() == WithOthers(old(Key()), nCol)
    {
      ghost var key := Key();
      OthersPermute(key, nCol);
      if nKeyCol < nCol {
        ok, q := Resize(nCol, memory, r);
        if !ok {
          return;
        }
        assert Key() == key by {
          assert Key() == Columns()[..old(nColumn)][..nKeyCol];
        }
        var j := FillAllColumns(nCol);
        assert nColumn == j;
        assert nCol == j;
      } else {
        nColumn := nCol;
        ok, q := true, r;
      }
    }

    method FillAllColumns(nCol: nat) returns (j: nat)
      requires Valid() && nColumn == nCol == |WithOthers(Key(), nCol)|
      modifies columns
      ensures Key() == old(Key()) && j == nCol && Columns() == WithOthers(old(Key()), nCol)
    {
      ghost var key := Key();
      var i: nat := 0;
      j := nKeyCol;
      while i < nCol
        invariant i <= nCol && nKeyCol <= j <= nColumn
        invariant columns[..j] == WithOthers(key, i) && Key() == key
      {
        OthersGrow(key, i + 1, nCol);
        var found := HasColumn(columns, j, i);
        if !found {
          assert j < nColumn;
          columns[j] := i;
          j := j + 1;
        }
        i := i + 1;
      }
    }
  }

  /** Different indices are different objects with different buffers. */
  predicate Separate(indices: seq<Index>)
    reads indices
  {
    forall i, j :: 0 <= i < j < |indices| ==> indices[i] != indices[j] && indices[i].columns != indices[j].columns
  }

  /** Every column of the primary key becomes NOT NULL. */
  method MarkNotNull(pk: Index, notNull: array<bool>)
    requires pk.Valid() && InTable(pk.Key(), notNull.Length)
    modifies notNull
    ensures forall x :: 0 <= x < notNull.Length ==> notNull[x] == (old(notNull[x]) || x in pk.Key())
  {
    var i: nat := 0;
    while i < pk.nKeyCol
      invariant i <= pk.nKeyCol
      invariant forall x :: 0 <= x < notNull.Length ==> notNull[x] == (old(notNull[x]) || x in pk.Key()[..i])
    {
      assert pk.columns[i] == pk.Key()[i] && pk.Key()[i] in pk.Key();
      assert pk.Key()[..i + 1] == pk.Key()[..i] + [pk.columns[i]];
      notNull[pk.columns[i]] := true;
      i := i + 1;
    }
    assert pk.Key()[..i] == pk.Key();
  }

  /** Of the other indices, the first k are extended, and the rest as they were created. */
  predicate Progress(indices: seq<Index>, keys: seq<seq<int>>, pk: Index, pkey: seq<int>, k: nat)
    requires |keys| == |indices|
    reads indices, set x | x in indices :: x.columns
  {
    forall m :: 0 <= m < |indices| && indices[m] != pk ==>
      if m < k then Extended(indices[m], keys[m], pkey) else AsCreated(indices[m], keys[m])
  }

  /** One turn of the loop over the indices. */
  method AddKeyTo(indices: seq<Index>, k: nat, pk: Index, memory: Requests, r: nat,
                  ghost keys: seq<seq<int>>, ghost pkey: seq<int>)
    returns (ok: bool, q: nat)
    requires k < |indices| == |keys| && pk in indices && Separate(indices)
    requires AsCreated(pk, pkey) && Progress(indices, keys, pk, pkey, k) && (indices[k].primary <==> indices[k] == pk)
    modifies if indices[k] == pk then {} else {indices[k], indices[k].columns}
    ensures indices[k].columns == old(indices[k].columns) || fresh(indices[k].columns)
    ensures Separate(indices) && r <= q && (Plenty(memory, r) ==> ok)
    ensures ok ==> AsCreated(pk, pkey) && Progress(indices, keys, pk, pkey, k + 1)
  {
    ok, q := true, r;
    var x := indices[k];
    if !x.primary {
      assert x.columns != pk.columns;
      ok, q := x.AddKeyOf(pk, memory, r);
    }
  }

  /** The loop over the indices of the table. */
  method AddKeyToOthers(indices: seq<Index>, pk: Index, memory: Requests, r: nat,
                        ghost keys: seq<seq<int>>, ghost pkey: seq<int>)
    returns (ok: bool, q: nat)
    requires |indices| == |keys| && pk in indices && Separate(indices)
    requires AsCreated(pk, pkey) && Progress(indices, keys, pk, pkey, 0)
    requires forall x <- indices :: x.primary <==> x == pk
    modifies set x | x in indices && x != pk :: x
    modifies set x | x in indices && x != pk :: x.columns
    ensures Separate(indices) && pk.columns == old(pk.columns) && r <= q && (Plenty(memory, r) ==> ok)
    ensures ok ==> AsCreated(pk, pkey) && Progress(indices, keys, pk, pkey, |indices|)
  {
    ok, q := true, r;
    var k: nat := 0;
    while k < |indices|
      invariant k <= |indices| && Separate(indices) && r <= q
      invariant AsCreated(pk, pkey) && Progress(indices, keys, pk, pkey, k) && ok
      invariant forall x <- indices :: x.columns == old(x.columns) || fresh(x.columns)
    {
      ok, q := AddKeyTo(indices, k, pk, memory, q, keys, pkey);
      if !ok {
        return;
      }
      k := k + 1;
    }
  }

  /** The primary key loses its repeats and becomes NOT NULL. */
  method PrepareKey(pk: Index, notNull: array<bool>, isNew: bool, imposter: bool, ghost key: seq<int>)
    requires AsCreated(pk, key) && InTable(key, notNull.Length) && (isNew ==> |key| == 1)
    modifies pk, pk.columns, notNull
    ensures pk.columns == old(pk.columns) && AsCreated(pk, Distinct(key, |key|))
    ensures forall c :: 0 <= c < notNull.Length ==> notNull[c] == (old(notNull[c]) || (!imposter && c in key))
  {
    DistinctInOrder(key, |key|);
    assert key[..|key|] == key;
    if !isNew {
      pk.RemoveRepeats();
    }
    assert pk.Key() == Distinct(key, |key|);
    if !imposter {
      MarkNotNull(pk, notNull);
    }
  }

  /** The primary key index is completed when all others have been. */
  method CompleteKey(indices: seq<Index>, pk: Index, nCol: nat, memory: Requests, r: nat,
                     ghost keys: seq<seq<int>>, ghost pkey: seq<int>)
    returns (ok: bool)
    requires |indices| == |keys| && pk in indices && Separate(indices) && NoRepeats(pkey) && InTable(pkey, nCol)
    requires AsCreated(pk, pkey) && Progress(indices, keys, pk, pkey, |indices|)
    modifies pk, pk.columns
    ensures Plenty(memory, r) ==> ok
    ensures Progress(indices, keys, pk, pkey, |indices|)
    ensures ok ==> pk.Valid() && pk.nKeyCol == |pkey| && pk.Columns() == WithOthers(pkey, nCol)
  {
    var q;
    assert forall x <- indices :: x != pk ==> x.columns != pk.columns;
    ok, q := pk.AddAllColumns(nCol, memory, r);
  }

  /** convertToWithoutRowidTable, given the primary key index, which it found or has just created
      for a single column, and the keys that the indices have before. */
  method Convert(indices: seq<Index>, pk: Index, notNull: array<bool>, isNew: bool, imposter: bool,
                 memory: Requests, ghost keys: seq<seq<int>>, ghost key: seq<int>)
    returns (ok: bool)
    requires |indices| == |keys| && pk in indices && Separate(indices)
    requires AsCreated(pk, key) && Progress(indices, keys, pk, key, 0)
    requires forall x <- indices :: x.primary <==> x == pk
    requires InTable(key, notNull.Length) && (isNew ==> |key| == 1)
    modifies indices, (set x | x in indices :: x.columns), notNull
    ensures forall c :: 0 <= c < notNull.Length ==> notNull[c] == (old(notNull[c]) || (!imposter && c in key))
    ensures Plenty(memory, 0) ==> ok
    ensures var pkey := Distinct(key, |key|);
      ok ==>
        && pk.Valid() && pk.nKeyCol == |pkey| && pk.Columns() == WithOthers(pkey, notNull.Length)
        && Progress(indices, keys, pk, pkey, |indices|)
  {
    PrepareKey(pk, notNull, isNew, imposter, key);
    ghost var pkey := Distinct(key, |key|);
    assert Progress(indices, keys, pk, pkey, 0);
    var q;
    ok, q := AddKeyToOthers(indices, pk, memory, 0, keys, pkey);
    if !ok {
      return;
    }
    DistinctInOrder(key, |key|);
    assert key[..|key|] == key;
    ok := CompleteKey(indices, pk, notNull.Length, memory, q, keys, pkey);
  }
}
