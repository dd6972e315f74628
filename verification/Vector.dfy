/**
 The growable array behind the completion handlers. Elements can only be moved: constructing over a
 live element or reading a destroyed one would lose or duplicate a callback. A cell holding None is
 raw memory, so the proofs of the moving loops show that neither ever happens.
 */
module Vector {
  import opened Wrappers
  import opened Lists

  /** The elements in a run of live cells. */
  function Elements<T>(cells: seq<Option<T>>): (s: seq<T>)
    requires forall i :: 0 <= i < |cells| ==> cells[i].Some?
    ensures |s| == |cells|
    ensures forall i {:trigger s[i]} :: 0 <= i < |s| ==> s[i] == cells[i].value
  {
    if |cells| == 0 then [] else [cells[0].value] + Elements(cells[1..])
  }

  /** One cell after the cells from p to end have been moved to dest. */
  function MovedCell<T>(cells: seq<Option<T>>, dest: nat, p: nat, end: nat, i: nat): Option<T>
    requires p <= end <= |cells| && dest + (end - p) <= |cells| && i < |cells|
  {
    if dest <= i < dest + (end - p) then cells[p + i - dest] else if p <= i < end then None else cells[i]
  }

  /** The moved cells are at dest in their order, raw memory is left where they were, and nothing else changes. */
  lemma MovedCells<T>(cells: seq<Option<T>>, dest: nat, p: nat, end: nat, j: nat)
    requires p <= end <= |cells| && dest + (end - p) <= |cells| && j < |cells|
    ensures dest <= j < dest + (end - p) ==> MovedCell(cells, dest, p, end, j) == cells[p + (j - dest)]
    ensures j < dest || dest + (end - p) <= j ==>
              MovedCell(cells, dest, p, end, j) == if p <= j < end then None else cells[j]
  {}

  /** Moving the tail down over a gap of m destroyed elements removes exactly these. */
  lemma Closed<T>(cells: seq<Option<T>>, gap: seq<Option<T>>, after: seq<Option<T>>, size: nat, i: nat, m: nat)
    requires |after| == |gap| == |cells| && i + m <= size <= |cells|
    requires forall j :: 0 <= j < |cells| ==> (cells[j].Some? <==> j < size)
    requires forall j {:trigger gap[j]} :: 0 <= j < |gap| ==> gap[j] == if i <= j < i + m then None else cells[j]
    requires forall j {:trigger after[j]} :: 0 <= j < |after| ==> after[j] == MovedCell(gap, i, i + m, size, j)
    ensures forall j :: 0 <= j < |after| ==> (after[j].Some? <==> j < size - m)
    ensures Elements(after[..size - m]) == Elements(cells[..size])[..i] + Elements(cells[..size])[i + m..]
  {
    hide Elements;
    forall j | 0 <= j < |after|
      ensures after[j] == if j < i then cells[j] else if j < size - m then cells[j + m] else None
    {
      if i <= j < size - m {
        assert after[j] == gap[j + m];
      } else {
        assert after[j] == None || after[j] == gap[j];
      }
    }
    var v, w := Elements(cells[..size]), Elements(after[..size - m]);
    forall j | 0 <= j < |w|
      ensures w[j] == (v[..i] + v[i + m..])[j]
    {
      assert w[j] == after[j].value;
      assert v[if j < i then j else j + m] == cells[if j < i then j else j + m].value;
    }
  }

  class Vector<T(0)> {
    var data: array<Option<T>>
    var size: nat

    ghost predicate Valid()
      reads this, data
    {
      size <= data.Length && forall i :: 0 <= i < data.Length ==> (data[i].Some? <==> i < size)
    }

    ghost function View(): (s: seq<T>)
      requires Valid()
      reads this, data
      ensures |s| == size
    {
      Elements(data[..size])
    }

    constructor ()
      ensures Valid() && View() == [] && fresh(data)
    {
      data := new Option<T>[0];
      size := 0;
    }

    function Size(): (n: nat)
      requires Valid()
      reads this, data
      ensures n == |View()|
    {
      size
    }

    function At(i: nat): (x: T)
      requires Valid() && i < size
      reads this, data
      ensures x == View()[i]
    {
      data[i].value
    }

    /** Assignment through the reference returned by at. */
    method Put(i: nat, x: T)
      requires Valid() && i < size
      modifies data
      ensures Valid() && View() == old(View())[i := x]
    {
      data[i] := Some(x);
    }

    /** Moves the cells from p to end to dest, in the direction in which overlapping is harmless. */
    method Move(dest: nat, p: nat, end: nat)
      requires p <= end <= data.Length && dest + (end - p) <= data.Length
      requires forall i :: p <= i < end ==> data[i].Some?
      requires forall i :: dest <= i < dest + (end - p) && !(p <= i < end) ==> data[i] == None
      modifies data
      ensures forall i {:trigger data[i]} :: 0 <= i < data.Length ==>
                data[i] == MovedCell(old(data[..]), dest, p, end, i)
    {
      ghost var was := data[..];
      var n := end - p;
      assert forall i :: p <= i < end ==> was[i].Some?;
      assert forall i :: dest <= i < dest + n && !(p <= i < end) ==> was[i] == None;
      if dest > p && dest < end {
        var k := n;
        while k > 0
          invariant 0 <= k <= n == end - p && |was| == data.Length
          invariant forall i {:trigger data[i]} :: 0 <= i < data.Length ==>
                      data[i] == if dest + k <= i < dest + n then was[p + i - dest]
                                 else if p + k <= i < end then None else was[i]
        {
          k := k - 1;
          assert data[p + k] == was[p + k];
          assert data[dest + k] == None;
          data[dest + k] := data[p + k];
          data[p + k] := None;
        }
      } else if dest != p {
        var k := 0;
        while k < n
          invariant 0 <= k <= n == end - p && |was| == data.Length
          invariant forall i {:trigger data[i]} :: 0 <= i < data.Length ==>
                      data[i] == if dest <= i < dest + k then was[p + i - dest]
                                 else if p <= i < p + k then None else was[i]
        {
          assert data[p + k] == was[p + k];
          assert data[dest + k] == None;
          data[dest + k] := data[p + k];
          data[p + k] := None;
          k := k + 1;
        }
      }
    }

    /** Moves everything to a block of n cells; fails when there is no memory. */
    method Realloc(n: nat, memory: bool) returns (ok: bool)
      requires Valid() && size <= n
      modifies this`data, data
      ensures Valid() && ok == (n == 0 || memory) && (data == old(data) || fresh(data))
      ensures View() == old(View()) && (ok ==> data.Length == n) && (!ok ==> data == old(data))
    {
      if n > 0 && !memory {
        return false;
      }
      var d := new Option<T>[n](_ => None);
      ghost var cells, v := data[..], View();
      var k := 0;
      while k < size
        invariant 0 <= k <= size <= data.Length == |cells| && data == old(data) && size == old(size)
        invariant forall i {:trigger d[i]} :: 0 <= i < n ==> d[i] == if i < k then cells[i] else None
        invariant forall i {:trigger data[i]} :: 0 <= i < data.Length ==> data[i] == if i < k then None else cells[i]
      {
        d[k] := data[k];
        data[k] := None;
        k := k + 1;
      }
      data := d;
      assert data[..size] == cells[..size];
      ok := true;
    }

    /** Puts x at position i; fails when the vector is full and cannot grow. */
    method Insert(i: nat, x: T, memory: bool) returns (ok: bool)
      requires Valid() && i <= size
      modifies this, data
      ensures Valid() && (data == old(data) || fresh(data))
      ensures ok == (memory || old(size < data.Length))
      ensures View() == if ok then Inserted(old(View()), i, x) else old(View())
    {
      hide Elements, Inserted;
      ghost var v := View();
      if size + 1 > data.Length {
        var grown := Realloc(size + 1, memory);
        if !grown {
          return false;
        }
      }
      Move(i + 1, i, size);
      assert data[i] == None;
      data[i] := Some(x);
      size := size + 1;
      assert View() == Inserted(v, i, x);
      ok := true;
    }

    method Append(x: T, memory: bool) returns (ok: bool)
      requires Valid()
      modifies this, data
      ensures Valid() && (data == old(data) || fresh(data))
      ensures ok == (memory || old(size < data.Length))
      ensures View() == if ok then old(View()) + [x] else old(View())
    {
      InsertedLast(View(), x);
      ok := Insert(size, x, memory);
    }

    /** Destroys the elements from i to end; their cells become raw memory. */
    method Destruct(i: nat, end: nat)
      requires i <= end <= data.Length && forall j :: i <= j < end ==> data[j].Some?
      modifies data
      ensures forall j {:trigger data[j]} :: 0 <= j < data.Length ==>
                data[j] == if i <= j < end then None else old(data[..])[j]
    {
      for k := i to end
        invariant forall j {:trigger data[j]} :: 0 <= j < data.Length ==>
                    data[j] == if i <= j < k then None else old(data[..])[j]
      {
        data[k] := None;
      }
    }

    /** Destroys n elements from i on, all of them when n is negative or too large, and closes the gap. */
    method RemoveAt(i: nat, n: int)
      requires Valid() && i <= size
      modifies this`size, data
      ensures Valid()
      ensures View() == if n < 0 || i + n > old(size) then old(View())[..i] else old(View())[..i] + old(View())[i + n..]
    {
      hide Elements;
      ghost var v := View();
      if n < 0 || i + n > size {
        Erase(i, size - i);
        assert v[..i] + v[|v|..] == v[..i];
      } else {
        Erase(i, n);
      }
    }

    method Erase(i: nat, n: nat)
      requires Valid() && i + n <= size
      modifies this`size, data
      ensures Valid() && View() == old(View())[..i] + old(View())[i + n..]
    {
      hide Elements, MovedCell;
      ghost var cells := data[..];
      Destruct(i, i + n);
      ghost var gap := data[..];
      Move(i, i + n, size);
      Closed(cells, gap, data[..], size, i, n);
      assert cells[..size] == old(data[..size]);
      size := size - n;
      assert data[..][..size] == data[..size];
    }

    /** Moves the element at position i out and closes the gap. */
    method TakeAt(i: nat) returns (x: T)
      requires Valid() && i < size
      modifies this`size, data
      ensures Valid() && x == old(View())[i] && View() == Removed(old(View()), i)
    {
      hide Elements, Removed;
      ghost var v := View();
      x := data[i].value;
      data[i] := None;
      Move(i, i + 1, size);
      size := size - 1;
      assert View() == Removed(v, i);
    }

    method Clear()
      requires Valid()
      modifies this`size, data
      ensures Valid() && View() == []
    {
      RemoveAt(0, -1);
    }
  }
}
