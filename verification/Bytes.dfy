/**
 Byte strings as the C programs see them: texts, the lines getline() splits a text into, and
 strstr().
 */
module Bytes {
  import opened OptionType
  import opened Sequences

  type Byte = b: int | 0 <= b < 256
  type Text = seq<Byte>

  const NUL: Byte := 0
  const NEWLINE: Byte := 10

  // ---- Lines ----

  /** How many bytes getline() takes from the front of `t`: up to and including the first newline. */
  function LineLength(t: Text): (n: nat)
    ensures n <= |t|
    ensures t != [] ==> n > 0
    ensures forall i :: 0 <= i < n - 1 ==> t[i] != NEWLINE
    ensures n < |t| ==> n > 0 && t[n - 1] == NEWLINE
  {
    if t == [] then 0 else if t[0] == NEWLINE then 1 else 1 + LineLength(t[1..])
  }

  /** The lines getline() returns for a file with contents `t`. */
  function Lines(t: Text): (ls: seq<Text>)
    ensures Join(ls) == t
    ensures forall l :: l in ls ==> l != []
  {
    if t == [] then [] else
      var n := LineLength(t);
      [t[..n]] + Lines(t[n..])
  }

  // ---- Searching ----

  /** The position of the first occurrence of `needle` in `hay`. */
  function Find(hay: Text, needle: Text): (r: Option<nat>)
    ensures r.Some? ==> OccursAt(hay, needle, r.value)
    ensures r.Some? ==> forall j :: 0 <= j < r.value ==> !OccursAt(hay, needle, j)
    ensures r.None? ==> forall j :: !OccursAt(hay, needle, j)
  {
    FindFrom(hay, needle, 0)
  }

  function FindFrom(hay: Text, needle: Text, i: nat): (r: Option<nat>)
    ensures r.Some? ==> i <= r.value && OccursAt(hay, needle, r.value)
    ensures r.Some? ==> forall j :: i <= j < r.value ==> !OccursAt(hay, needle, j)
    ensures r.None? ==> forall j :: i <= j ==> !OccursAt(hay, needle, j)
    decreases |hay| - i
  {
    if |hay| < i + |needle| then None
    else if OccursAt(hay, needle, i) then Some(i)
    else FindFrom(hay, needle, i + 1)
  }

  /** A text's C string: everything before its first NUL. */
  function CString(t: Text): (s: Text)
    ensures s <= t
    ensures NUL !in t ==> s == t
  {
    if t == [] || t[0] == NUL then [] else [t[0]] + CString(t[1..])
  }

  /** strstr(): it does not look behind a NUL. */
  function StrStr(hay: Text, needle: Text): (r: Option<nat>)
    ensures r.Some? ==> OccursAt(hay, needle, r.value)
    ensures NUL !in hay ==> r == Find(hay, needle)
  {
    var r := Find(CString(hay), needle);
    assert r.Some? ==> hay[r.value..r.value + |needle|] == CString(hay)[r.value..r.value + |needle|];
    r
  }

  /** An occurrence that fits into a prefix of a text is one of the prefix, and the other way round. */
  lemma OccursInPrefix(a: Text, b: Text, needle: Text, i: int)
    requires i + |needle| <= |a|
    ensures OccursAt(a + b, needle, i) <==> OccursAt(a, needle, i)
  {
    if 0 <= i {
      assert (a + b)[i..i + |needle|] == a[i..i + |needle|];
    }
  }

  lemma OccursInSuffix(a: Text, b: Text, needle: Text, i: int)
    requires |a| <= i
    ensures OccursAt(a + b, needle, i) <==> OccursAt(b, needle, i - |a|)
  {
    if i <= |a + b| - |needle| {
      assert (a + b)[i..i + |needle|] == b[i - |a|..i - |a| + |needle|];
    }
  }

  /** The first occurrence in a prefix is the first occurrence in the text. */
  lemma FindInPrefix(a: Text, b: Text, needle: Text)
    requires Find(a, needle).Some?
    ensures Find(a + b, needle) == Find(a, needle)
  {
    var i := Find(a, needle).value;
    OccursInPrefix(a, b, needle, i);
    forall j | 0 <= j < i
      ensures !OccursAt(a + b, needle, j)
    {
      OccursInPrefix(a, b, needle, j);
    }
  }

  /** Where a needle cannot straddle the border of two texts, they can be searched one by one. */
  lemma FindAcross(a: Text, b: Text, needle: Text)
    requires Find(a, needle).None?
    requires forall i :: |a| - |needle| < i < |a| ==> !OccursAt(a + b, needle, i)
    ensures Find(a + b, needle) ==
            if Find(b, needle).None? then None else Some(|a| + Find(b, needle).value)
  {
    if Find(b, needle).None? {
      if Find(a + b, needle).Some? {
        NoOccurrenceAcross(a, b, needle, Find(a + b, needle).value);
      }
    } else {
      var at := |a| + Find(b, needle).value;
      OccursInSuffix(a, b, needle, at);
      var first := Find(a + b, needle).value;
      if first < at {
        NoOccurrenceAcross(a, b, needle, first);
      }
    }
  }

  lemma NoOccurrenceAcross(a: Text, b: Text, needle: Text, j: nat)
    requires !OccursAt(a, needle, j)
    requires |a| - |needle| < j < |a| ==> !OccursAt(a + b, needle, j)
    requires !OccursAt(b, needle, j - |a|)
    ensures !OccursAt(a + b, needle, j)
  {
    if j + |needle| <= |a| {
      OccursInPrefix(a, b, needle, j);
    } else if |a| <= j {
      OccursInSuffix(a, b, needle, j);
    }
  }

  // ---- Newline and NUL ----

  lemma {:induction false} LengthToNewline(a: Text, b: Text)
    requires 10 !in a
    ensures LineLength(a + ([10] + b)) == |a| + 1
    decreases |a|
  {
    var t := a + ([10] + b);
    if a != [] {
      assert t[0] == a[0] && t[1..] == a[1..] + ([10] + b);
      LengthToNewline(a[1..], b);
    }
  }

  /** getline() ends a line behind byte 10; what is left at the end of the file is a line, too. */
  lemma LinesEndAtNewline(a: Text, b: Text)
    requires 10 !in a
    ensures Lines(a + ([10] + b)) == [a + [10]] + Lines(b)
    ensures Lines(a) == if a == [] then [] else [a]
  {
    hide LineLength;
    LengthToNewline(a, b);
    var t := a + ([10] + b);
    assert t[..|a| + 1] == a + [10] && t[|a| + 1..] == b;
    if a != [] {
      var n := LineLength(a);
      assert forall i :: 0 <= i < |a| ==> a[i] != NEWLINE;
      assert a[..|a|] == a && a[|a|..] == [];
    }
  }

  /** strstr() searches up to byte 0. */
  lemma {:induction false} SearchEndsAtNul(a: Text, b: Text, needle: Text)
    requires 0 !in a
    ensures StrStr(a + ([0] + b), needle) == Find(a, needle)
  {
    hide Find, FindFrom;
    CStringEnds(a, b);
  }

  lemma {:induction false} CStringEnds(a: Text, b: Text)
    requires 0 !in a
    ensures CString(a + ([0] + b)) == a
    decreases |a|
  {
    var t := a + ([0] + b);
    if a != [] {
      assert t[0] == a[0] && t[1..] == a[1..] + ([0] + b);
      CStringEnds(a[1..], b);
      assert [a[0]] + a[1..] == a;
    }
  }
}
