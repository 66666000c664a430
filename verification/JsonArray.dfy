/** The growing table of a JSON array, `compat/jansson/value.c`. */
module JsonArrays {
  lemma JoinSlices<T>(a: seq<T>, m: nat, n: nat, front: seq<T>, back: seq<T>)
    requires m + n <= |a| && a[..m] == front && a[m..m + n] == back
    ensures a[..m + n] == front + back
  {
  }

  class JsonArray<T(0)> {
    var table: array<T>
    var size: nat
    var entries: nat

    ghost predicate Valid()
      reads this
    {
      entries <= size == table.Length && size >= 8
    }

    ghost function Elements(): (s: seq<T>)
      requires Valid()
      reads this, table
      ensures |s| == entries
    {
      table[..entries]
    }

    /** `json_array`. */
    constructor ()
      ensures Valid() && Elements() == [] && fresh(table)
    {
      entries := 0;
      size := 8;
      table := new T[8];
    }

    /** `json_array_get`: no element for an index at or behind the end. */
    method Get(index: nat) returns (found: bool, value: T)
      requires Valid()
      ensures found <==> index < |Elements()|
      ensures found ==> value == Elements()[index]
    {
      found := index < entries;
      value := table[if found then index else 0];
    }

    /** `json_array_grow` without the copying; the old table, which is also the new one if there was room. */
    method Grow(amount: nat) returns (oldTable: array<T>)
      requires Valid()
      modifies this`table, this`size
      ensures Valid() && entries + amount <= size && oldTable == old(table)
      ensures table == old(table) || fresh(table)
      ensures old(entries + amount <= size) <==> table == old(table)
    {
      oldTable := table;
      if entries + amount <= size {
        return;
      }
      var newSize := if size + amount >= size * 2 then size + amount else size * 2;
      table := new T[newSize];
      size := newSize;
    }

    /** `array_copy` and `array_move`; like `memmove`, the source range is read before any of it is overwritten. */
    method Copy(dest: array<T>, dpos: nat, src: array<T>, spos: nat, count: nat)
      requires spos + count <= src.Length && dpos + count <= dest.Length
      modifies dest
      ensures dest[dpos..dpos + count] == old(src[spos..spos + count])
      ensures dest[..dpos] == old(dest[..dpos]) && dest[dpos + count..] == old(dest[dpos + count..])
    {
      forall k | 0 <= k < count {
        dest[dpos + k] := src[spos + k];
      }
    }

    /** `json_array_grow` with its copying. */
    method GrowCopy(amount: nat)
      requires Valid()
      modifies this`table, this`size
      ensures Valid() && entries + amount <= size && Elements() == old(Elements())
      ensures table == old(table) || fresh(table)
    {
      var oldTable := Grow(amount);
      if oldTable != table {
        Copy(table, 0, oldTable, 0, entries);
      }
    }

    /** `json_array_append_new`. */
    method Append(value: T)
      requires Valid()
      modifies this, table
      ensures Valid() && Elements() == old(Elements()) + [value]
      ensures table == old(table) || fresh(table)
    {
      GrowCopy(1);
      table[entries] := value;
      entries := entries + 1;
    }

    /** `json_array_set_new`; `replaced` is the element that loses its place. */
    method Set(index: nat, value: T) returns (ok: bool, replaced: T)
      requires Valid()
      modifies table
      ensures Valid() && ok == (index < |old(Elements())|)
      ensures ok ==> replaced == old(Elements())[index] && Elements() == old(Elements())[index := value]
      ensures !ok ==> Elements() == old(Elements())
    {
      ok := index < entries;
      replaced := table[if ok then index else 0];
      if ok {
        table[index] := value;
      }
    }

    /** Room for one element at `index`: a new table filled from the old one in two pieces, or the tail moved in place. */
    method OpenGap(index: nat)
      requires Valid() && index <= entries
      modifies this`table, this`size, table
      ensures Valid() && entries < size && (table == old(table) || fresh(table))
      ensures table[..index] == old(Elements())[..index] && table[index + 1..entries + 1] == old(Elements())[index..]
    {
      var oldTable := Grow(1);
      if oldTable != table {
        Copy(table, 0, oldTable, 0, index);
      }
      assert table[..index] == old(Elements())[..index] && oldTable[index..entries] == old(Elements())[index..];
      MoveTail(oldTable, index);
    }

    method MoveTail(source: array<T>, index: nat)
      requires Valid() && index <= entries < size && entries <= source.Length
      modifies table
      ensures table[..index] == old(table[..index]) && table[index + 1..entries + 1] == old(source[index..entries])
    {
      Copy(table, index + 1, source, index, entries - index);
      assert table[..index] == table[..index + 1][..index] && old(table[..index]) == old(table[..index + 1])[..index];
      assert index + 1 + (entries - index) == entries + 1;
    }

    /** `json_array_insert_new`. */
    method Insert(index: nat, value: T) returns (ok: bool)
      requires Valid()
      modifies this, table
      ensures Valid() && ok == (index <= |old(Elements())|)
      ensures Elements() == if ok then old(Elements())[..index] + [value] + old(Elements())[index..] else old(Elements())
      ensures table == old(table) || fresh(table)
    {
      ok := index <= entries;
      if !ok {
        return;
      }
      OpenGap(index);
      table[index] := value;
      entries := entries + 1;
      assert table[..entries] == table[..index] + [value] + table[index + 1..entries];
    }

    /** `json_array_extend`; `other` may be this array itself. */
    method Extend(other: JsonArray<T>)
      requires Valid() && other.Valid() && (other != this ==> other.table != table)
      modifies this, table
      ensures Valid() && Elements() == old(Elements()) + old(other.Elements())
      ensures table == old(table) || fresh(table)
    {
      ghost var theirs := other.Elements();
      GrowCopy(other.entries);
      assert other.table[..other.entries] == theirs;
      CopyBehind(other.table, other.entries);
    }

    method CopyBehind(source: array<T>, count: nat)
      requires Valid() && entries + count <= size && count <= source.Length
      modifies this`entries, table
      ensures Valid() && Elements() == old(Elements()) + old(source[..count])
    {
      ghost var mine := Elements();
      Copy(table, entries, source, 0, count);
      JoinSlices(table[..], entries, count, mine, old(source[..count]));
      entries := entries + count;
    }

    /**
      `json_array_remove`. Its `memmove` takes one slot more than there are elements behind
      `index`, which stays inside the table only when the table is not full.
      */
    method Remove(index: nat) returns (ok: bool, removed: T)
      requires Valid() && (index < entries ==> entries < size)
      modifies this`entries, table
      ensures Valid() && ok == (index < |old(Elements())|)
      ensures ok ==> removed == old(Elements())[index] && Elements() == old(Elements())[..index] + old(Elements())[index + 1..]
      ensures !ok ==> Elements() == old(Elements())
    {
      ok := index < entries;
      removed := table[if ok then index else 0];
      if ok {
        ghost var was := Elements();
        Copy(table, index, table, index + 1, entries - index);
        assert table[index..entries - 1] == table[index..entries][..entries - 1 - index];
        entries := entries - 1;
        assert table[..entries] == table[..index] + table[index..entries];
        assert was[index + 1..] == old(table[index + 1..entries + 1])[..|was| - index - 1];
      }
    }

    /** `json_array_clear`. */
    method Clear()
      requires Valid()
      modifies this`entries
      ensures Valid() && Elements() == []
    {
      entries := 0;
    }
  }
}
