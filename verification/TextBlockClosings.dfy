/**
 End tags in repeated text.  Where the begin tag occurs in the end tag, the end tag that closes a
 block opens the next one, so Replace turns all that follows into copies of one block.  This module
 counts how many blocks an edit finds, and shows how few copies have to be looked at to know that a
 second edit will always find as many blocks as the first one wrote.
 */
module TextBlockClosings {
  import opened Bytes
  import opened Sequences

  /** `n` copies of a text. */
  function Blocks(block: Text, n: nat): (t: Text)
    ensures block != [] ==> |t| >= n
    ensures NUL !in block ==> NUL !in t
  {
    if n == 0 then [] else block + Blocks(block, n - 1)
  }

  /** How often the end tag is found if the search goes on `step` bytes behind each place where it was found. */
  function Closings(e: Text, step: nat, t: Text): nat
    requires 0 < step <= |e|
    decreases |t|
  {
    var at := Find(t, e);
    if at.None? then 0 else 1 + Closings(e, step, t[at.value + step..])
  }

  lemma {:induction false} BlocksDiffer(block: Text, m: nat, n: nat)
    requires block != [] && Blocks(block, m) == Blocks(block, n)
    ensures m == n
    decreases m
  {
    if m > 0 && n > 0 {
      assert Blocks(block, m)[|block|..] == Blocks(block, m - 1);
      assert Blocks(block, n)[|block|..] == Blocks(block, n - 1);
      BlocksDiffer(block, m - 1, n - 1);
    }
  }

  // ---- Every number of closings is possible ----

  /** End tags at the end of a text are all found, or more than these. */
  lemma {:induction false} ClosingsOfBlocks(e: Text, step: nat, front: Text, n: nat)
    requires 0 < step <= |e|
    ensures Closings(e, step, front + Blocks(e, n)) >= n
    decreases n
  {
    hide Find, FindFrom, Closings;
    if n > 0 {
      var t, rest := front + Blocks(e, n), Blocks(e, n - 1);
      assert t == front + e + rest;
      var past := EndTagFound(e, step, front, rest);
      assert t[past..] == (front + e)[past..] + rest;
      ClosingsOfBlocks(e, step, (front + e)[past..], n - 1);
    }
  }

  lemma EndTagFound(e: Text, step: nat, front: Text, rest: Text) returns (past: nat)
    requires 0 < step <= |e|
    ensures past <= |front + e|
    ensures Closings(e, step, front + e + rest) == 1 + Closings(e, step, (front + e + rest)[past..])
  {
    hide FindFrom;
    var t := front + e + rest;
    assert t[|front|..|front| + |e|] == e;
    assert OccursAt(t, e, |front|);
    past := Find(t, e).value + step;
  }

  /** Without its last byte, a text loses at most one closing. */
  lemma {:induction false} ClosingsWithoutLast(e: Text, step: nat, t: Text, last: Byte)
    requires 0 < step <= |e|
    ensures Closings(e, step, t) <= Closings(e, step, t + [last]) <= Closings(e, step, t) + 1
    decreases |t|
  {
    hide Find;
    var all := t + [last];
    if Find(t, e).Some? {
      FindInPrefix(t, [last], e);
      var past := Find(t, e).value + step;
      assert all[past..] == t[past..] + [last];
      ClosingsWithoutLast(e, step, t[past..], last);
    } else if Find(all, e).Some? {
      LastClosing(e, t, last);
      var past := Find(all, e).value + step;
      assert |all[past..]| < |e|;
    }
  }

  lemma LastClosing(e: Text, t: Text, last: Byte)
    requires Find(t, e).None? && Find(t + [last], e).Some?
    ensures Find(t + [last], e).value == |t| + 1 - |e|
  {
    var at := Find(t + [last], e).value;
    if at + |e| <= |t| {
      OccursInPrefix(t, [last], e, at);
    }
  }

  lemma {:induction false} SomeTextWithClosings(e: Text, step: nat, n: nat, t: Text) returns (r: Text)
    requires 0 < step <= |e| && n <= Closings(e, step, t)
    ensures r <= t && Closings(e, step, r) == n
    decreases |t|
  {
    if Closings(e, step, t) == n {
      r := t;
    } else {
      var init, last := t[..|t| - 1], t[|t| - 1];
      assert t == init + [last];
      ClosingsWithoutLast(e, step, init, last);
      r := SomeTextWithClosings(e, step, n, init);
    }
  }

  /** Any number of closings is the one of some text. */
  lemma TextWithClosings(e: Text, step: nat, n: nat) returns (t: Text)
    requires 0 < step <= |e| && NUL !in e
    ensures NUL !in t && Closings(e, step, t) == n
  {
    ClosingsOfBlocks(e, step, [], n);
    assert [] + Blocks(e, n) == Blocks(e, n);
    t := SomeTextWithClosings(e, step, n, Blocks(e, n));
  }

  // ---- How many copies have to be looked at ----

  /** What is left of `rest` and one more copy of `block` behind the first end tag. */
  function Left(e: Text, step: nat, rest: Text, block: Text): Text
    requires 0 < step <= |e| && Find(rest + block, e).Some?
  {
    (rest + block)[Find(rest + block, e).value + step..]
  }

  lemma ClosingsStep(e: Text, step: nat, rest: Text, block: Text, n: nat)
    requires 0 < step <= |e| && Find(rest + block, e).Some?
    ensures Closings(e, step, rest + Blocks(block, n + 1)) ==
            1 + Closings(e, step, Left(e, step, rest, block) + Blocks(block, n))
  {
    hide Find;
    var more := Blocks(block, n);
    assert rest + Blocks(block, n + 1) == rest + block + more;
    FindInPrefix(rest + block, more, e);
    var past := Find(rest + block, e).value + step;
    assert (rest + block + more)[past..] == (rest + block)[past..] + more;
  }

  /** A text to which copies of `block` were appended so often that it ends as before when one more is. */
  predicate Cyclic(rest: Text, block: Text) {
    (rest + block)[|block|..] == rest
  }

  /** After a closing, the end tag occurs in the next copy at the same place. */
  lemma LeftIsCyclic(e: Text, step: nat, rest: Text, block: Text)
    requires 0 < step <= |e| && step <= |block| && Cyclic(rest, block) && Find(rest + block, e).Some?
    ensures var left := Left(e, step, rest, block);
            Cyclic(left, block) && OccursAt(left + block, e, |block| - step)
  {
    hide Find, FindFrom;
    var at := Find(rest + block, e).value;
    var left, twice, p := Left(e, step, rest, block), rest + block + block, |block| - step;
    DropConcat(rest + block, block, |block|);
    DropConcat(rest + block, block, at + step);
    assert twice[|block|..] == rest + block && twice[at + step..] == left + block;
    DropTwice(twice, at + step, |block|);
    DropTwice(twice, |block|, at + step);
    DropTwice(twice, at + step, p);
    DropTwice(twice, |block|, at);
    assert (left + block)[p..] == (rest + block)[at..];
    assert (left + block)[p..][..|e|] == (rest + block)[at..][..|e|] == e;
  }

  /** If the first end tag is at that place, nothing changes any more. */
  lemma {:induction false} SettledForever(e: Text, step: nat, rest: Text, block: Text, n: nat)
    requires 0 < step <= |e| && Find(rest, e).None?
    requires Find(rest + block, e).Some? && Left(e, step, rest, block) == rest
    ensures Closings(e, step, rest + Blocks(block, n)) == n
    decreases n
  {
    hide Find, FindFrom, Left;
    if n == 0 {
      assert rest + Blocks(block, 0) == rest;
    } else {
      ClosingsStep(e, step, rest, block, n - 1);
      SettledForever(e, step, rest, block, n - 1);
    }
  }

  /**
   From closing to closing what is left grows or stays the same, and it cannot grow beyond the place
   where the next end tag ends.  So if it has room for `room` bytes, `room` copies are enough.
   */
  lemma {:induction false} EnoughCopies(e: Text, step: nat, rest: Text, block: Text, room: nat, n: nat)
    requires 0 < step <= |e| && step <= |block| && Cyclic(rest, block)
    requires OccursAt(rest + block, e, |block| - step)
    requires |rest| + room + 1 >= |block| - step + |e|
    requires forall i :: 0 <= i <= room ==> Closings(e, step, rest + Blocks(block, i)) == i
    ensures Closings(e, step, rest + Blocks(block, n)) == n
    decreases room
  {
    hide Find, FindFrom, Blocks, Left, OccursAt;
    NothingLeft(e, step, rest, block);
    var left := Left(e, step, rest, block);
    LeftGrows(e, step, rest, block);
    if |left| == |rest| {
      SettledForever(e, step, rest, block, n);
    } else if n == 0 {
      assert Closings(e, step, rest + Blocks(block, 0)) == 0;
    } else {
      LeftIsCyclic(e, step, rest, block);
      forall i | 0 <= i <= room - 1
        ensures Closings(e, step, left + Blocks(block, i)) == i
      {
        ClosingsStep(e, step, rest, block, i);
        assert Closings(e, step, rest + Blocks(block, i + 1)) == i + 1;
      }
      EnoughCopies(e, step, left, block, room - 1, n - 1);
      ClosingsStep(e, step, rest, block, n - 1);
    }
  }

  lemma NothingLeft(e: Text, step: nat, rest: Text, block: Text)
    requires 0 < step <= |e| && Closings(e, step, rest + Blocks(block, 0)) == 0
    ensures Find(rest, e).None?
  {
    assert rest + Blocks(block, 0) == rest;
  }

  lemma LeftGrows(e: Text, step: nat, rest: Text, block: Text)
    requires 0 < step <= |e| && step <= |block| && Cyclic(rest, block)
    requires OccursAt(rest + block, e, |block| - step) && Find(rest, e).None?
    ensures Find(rest + block, e).Some? && |rest| < |block| - step + |e|
    ensures var left := Left(e, step, rest, block);
            && |rest| <= |left|
            && (|left| == |rest| ==> left == rest)
            && (|rest| + 1 == |block| - step + |e| ==> |left| == |rest|)
  {
    var p := |block| - step;
    if p + |e| <= |rest| {
      OccursInPrefix(rest, block, e, p);
    }
    var at := Find(rest + block, e).value;
    if at + |e| <= |rest| {
      OccursInPrefix(rest, block, e, at);
    }
  }

  /** Looking at as many copies as a copy has bytes tells what happens for any number of them. */
  lemma FewCopiesDecide(e: Text, step: nat, rest: Text, block: Text)
    requires 0 < step <= |e| && step <= |block| && Cyclic(rest, block)
    requires forall i :: 0 <= i <= |block| ==> Closings(e, step, rest + Blocks(block, i)) == i
    ensures forall n: nat :: Closings(e, step, rest + Blocks(block, n)) == n
  {
    hide Find, FindFrom, Blocks, OccursAt;
    OneClosing(e, step, rest, block);
    var left := Left(e, step, rest, block);
    LeftIsCyclic(e, step, rest, block);
    forall i | 0 <= i <= |block| - 1
      ensures Closings(e, step, left + Blocks(block, i)) == i
    {
      ClosingsStep(e, step, rest, block, i);
      assert Closings(e, step, rest + Blocks(block, i + 1)) == i + 1;
    }
    forall n: nat
      ensures Closings(e, step, rest + Blocks(block, n)) == n
    {
      if n > 0 {
        EnoughCopies(e, step, left, block, |block| - 1, n - 1);
        ClosingsStep(e, step, rest, block, n - 1);
      }
    }
  }

  lemma OneClosing(e: Text, step: nat, rest: Text, block: Text)
    requires 0 < step <= |e| && Closings(e, step, rest + Blocks(block, 1)) == 1
    ensures Find(rest + block, e).Some? && |Left(e, step, rest, block)| + step >= |e|
  {
    assert Blocks(block, 1) == block + Blocks(block, 0) == block;
  }
}
