/** The growable string buffer: an array that is doubled when the text no longer fits. */
module StringBuffer {
  import opened Basics

  const NUL: char := '\0'

  /** Text without a NUL, as a C string pointer shows it. */
  type CString = s: string | NUL !in s

  /** Sizes only: what an append does to them, and the bytes realloc moved so far. */
  datatype Sizes = Sizes(size: nat, used: nat, moved: nat)

  function Appended(z: Sizes, l: nat): Sizes
  {
    var used := z.used + l;
    if used >= z.size then Sizes(2 * z.size + l, used, z.moved + z.size) else z.(used := used)
  }

  class Sb {
    var data: array<char>
    var size: nat
    var used: nat
    ghost var moved: nat

    /** The terminator has its place inside the array. */
    ghost predicate Valid()
      reads this, data
    {
      && size == data.Length
      && used < size
      && NUL !in data[..used]
    }

    ghost function Contents(): string
      reads this, data
      requires Valid()
    {
      data[..used]
    }

    ghost function SizesNow(): Sizes
      reads this
    {
      Sizes(size, used, moved)
    }

    /** sb_create without a source buffer. */
    constructor (size: nat)
      requires size >= 1
      ensures Valid() && fresh(data) && Contents() == ""
      ensures SizesNow() == Sizes(size, 0, 0)
    {
      this.size, used, moved := size, 0, 0;
      data := new char[size];
    }

    /**
     * sb_cat_str. A missing string or a failing realloc leaves the buffer alone;
     * otherwise the text is appended and a NUL follows it.
     */
    method CatStr(s: Option<CString>, noMemory: bool) returns (rc: int)
      requires Valid()
      modifies this, data
      ensures Valid() && (data == old(data) || fresh(data))
      ensures rc == 0 <==> s.Some? && !(noMemory && old(used) + |s.value| >= old(size))
      ensures rc == 0 || rc == -1
      ensures rc == 0 ==>
        && Contents() == old(Contents()) + s.value
        && data[used] == '\0'
        && SizesNow() == Appended(old(SizesNow()), |s.value|)
      ensures rc == -1 ==> data == old(data) && data[..] == old(data[..]) && SizesNow() == old(SizesNow())
    {
      if s.None? {
        return -1;
      }
      var l := |s.value|;
      var newUsed := used + l;
      if newUsed >= size {
        if noMemory {
          return -1;
        }
        var bigger := new char[2 * size + l];
        forall i | 0 <= i < size {
          bigger[i] := data[i];
        }
        assert bigger[..used] == data[..used];
        moved := moved + size;
        data, size := bigger, 2 * size + l;
      }
      forall i | 0 <= i < l {
        data[used + i] := s.value[i];
      }
      data[newUsed] := NUL;
      used := newUsed;
      assert data[..used] == old(data[..used]) + s.value;
      return 0;
    }

    /** Appends several strings; the buffer holds their concatenation. */
    method CatAll(strings: seq<CString>)
      requires Valid()
      modifies this, data
      ensures Valid() && (data == old(data) || fresh(data))
      ensures Contents() == old(Contents()) + Flatten(strings)
      ensures strings != [] ==> data[used] == '\0'
      ensures SizesNow() == AppendedAll(old(SizesNow()), strings)
    {
      ghost var start, sizes := Contents(), SizesNow();
      assert start == start + Flatten<char>([]);
      for i := 0 to |strings|
        invariant Valid() && (data == old(data) || fresh(data))
        invariant Contents() == start + Flatten(strings[..i])
        invariant i > 0 ==> data[used] == NUL
        invariant SizesNow() == AppendedAll(sizes, strings[..i])
      {
        hide Flatten, Appended;
        AppendOne(start, sizes, strings, i);
        var _ := CatStr(Some(strings[i]), false);
      }
      assert strings[..|strings|] == strings;
    }
  }

  lemma AppendOne(start: string, z: Sizes, strings: seq<CString>, i: nat)
    requires i < |strings|
    ensures start + Flatten(strings[..i + 1]) == start + Flatten(strings[..i]) + strings[i]
    ensures AppendedAll(z, strings[..i + 1]) == Appended(AppendedAll(z, strings[..i]), |strings[i]|)
  {
    hide Flatten, Appended;
    FlattenNext(strings, i);
    assert strings[..i + 1][..i] == strings[..i];
  }

  function AppendedAll(z: Sizes, strings: seq<CString>): Sizes
  {
    if strings == [] then z
    else Appended(AppendedAll(z, strings[..|strings| - 1]), |strings[|strings| - 1]|)
  }

  /**
   * However many strings are appended to a buffer created with size0, the text and
   * its NUL fit, the capacity stays within three times the text, and all
   * reallocations together have moved no more bytes than the capacity gained.
   */
  lemma {:induction false} CostIsLinear(size0: nat, strings: seq<CString>)
    requires size0 >= 1
    ensures var z := AppendedAll(Sizes(size0, 0, 0), strings);
      && z.used == |Flatten(strings)| < z.size
      && (z.size <= size0 || z.size <= 3 * z.used)
      && z.size - size0 - z.used <= z.moved <= z.size - size0
  {
    if strings != [] {
      assert strings[..|strings|] == strings;
      FlattenNext(strings, |strings| - 1);
      CostIsLinear(size0, strings[..|strings| - 1]);
    }
  }

  /**
   * The initial size matters: an append leaves room for the NUL exactly when the
   * size was not zero.
   */
  lemma NulFitsExactly(z: Sizes, l: nat)
    requires z.used <= z.size
    ensures Appended(z, l).used < Appended(z, l).size <==> z.size >= 1
  {
  }
}
