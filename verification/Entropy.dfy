/**
 The entropy pool of xdm/genauth.c: every word is rotated, folded with six cells, twisted, and
 stored. A rotation by 0 is the identity here.
 */
module Entropy {

  // ---------------------------------------------------------------- word arithmetic

  function TwistTable(i: bv32): bv32 {
    if i == 0 then 0 else if i == 1 then 0x3b6e20c8
    else if i == 2 then 0x76dc4190 else if i == 3 then 0x4db26158
    else if i == 4 then 0xedb88320 else if i == 5 then 0xd6d6a3e8
    else if i == 6 then 0x9b64c2b0 else 0xa00ae278
  }

  function Twist(w: bv32): bv32 {
    (w >> 3) ^ TwistTable(w & 7)
  }

  /** The top three bits of a table entry determine its index. */
  function TableIndex(top: bv32): bv32 {
    if top == 0 then 0 else if top == 1 then 1
    else if top == 3 then 2 else if top == 2 then 3
    else if top == 7 then 4 else if top == 6 then 5
    else if top == 4 then 6 else 7
  }

  function Untwist(r: bv32): bv32 {
    var i := TableIndex(r >> 29);
    ((r ^ TwistTable(i)) << 3) | i
  }

  function Up(w: bv32, e: bv32): bv32
    requires e <= 32
  {
    w << e
  }

  function Or(a: bv32, b: bv32): bv32 {
    a | b
  }

  function Down(w: bv32, e: bv32): bv32
    requires e <= 32
  {
    w >> e
  }

  function Rotate(w: bv32, e: bv32): bv32
    requires e < 32
  {
    if e == 0 then w else Or(Up(w, e), Down(w, 32 - e))
  }

  function Unrotate(w: bv32, e: bv32): bv32
    requires e < 32
  {
    if e == 0 then w else Or(Down(w, e), Up(w, 32 - e))
  }

  lemma ShiftedBits(y: bv32, i: bv32)
    requires y >> 29 == 0 && i < 8
    ensures ((y << 3) | i) & 7 == i && ((y << 3) | i) >> 3 == y
  {
  }

  lemma UntwistTwist(w: bv32)
    ensures Untwist(Twist(w)) == w
  {
  }

  lemma TwistUntwist(r: bv32)
    ensures Twist(Untwist(r)) == r
  {
    var i := TableIndex(r >> 29);
    var y := r ^ TwistTable(i);
    assert TwistTable(i) >> 29 == r >> 29;
    assert y >> 29 == (r >> 29) ^ (TwistTable(i) >> 29);
    assert i < 8;
    ShiftedBits(y, i);
  }

  /** The twist step is a bijection of the 32-bit words. */
  lemma TwistIsBijective(w: bv32)
    ensures Untwist(Twist(w)) == w && Twist(Untwist(w)) == w
  {
    hide *;
    UntwistTwist(w);
    TwistUntwist(w);
  }

  /** Shifting up and down again leaves the low bits, shifting the other way round the high bits. */
  lemma HalvesMakeWhole(w: bv32, e: bv32)
    requires 0 < e < 32
    ensures Or(Down(Up(w, e), e), Up(Down(w, 32 - e), 32 - e)) == w
  {
  }

  lemma NothingIsLeft(w: bv32, e: bv32)
    requires 0 < e < 32
    ensures Down(Down(w, 32 - e), e) == 0 && Up(Up(w, e), 32 - e) == 0
  {
  }

  lemma DownOfOr(a: bv32, b: bv32, e: bv32)
    requires e < 32
    ensures Down(a | b, e) == Down(a, e) | Down(b, e)
  {
  }

  lemma UpOfOr(a: bv32, b: bv32, e: bv32)
    requires e < 32
    ensures Up(a | b, e) == Up(a, e) | Up(b, e)
  {
  }

  lemma ShiftsDistribute(a: bv32, b: bv32, e: bv32)
    requires e < 32
    ensures Down(Or(a, b), e) == Or(Down(a, e), Down(b, e)) && Up(Or(a, b), e) == Or(Up(a, e), Up(b, e))
  {
    hide Up, Down;
    DownOfOr(a, b, e);
    UpOfOr(a, b, e);
  }

  lemma OrOf(a: bv32, b: bv32)
    ensures Or(a, 0) == a && Or(0, b) == b && Or(a, b) == Or(b, a)
  {
  }

  lemma RotateIsBijective(w: bv32, e: bv32)
    requires e < 32
    ensures Unrotate(Rotate(w, e), e) == w
  {
    hide Up, Down, Or;
    if e > 0 {
      ShiftsDistribute(Up(w, e), Down(w, 32 - e), e);
      ShiftsDistribute(Up(w, e), Down(w, 32 - e), 32 - e);
      NothingIsLeft(w, e);
      HalvesMakeWhole(w, e);
      OrOf(Down(Up(w, e), e), Up(Down(w, 32 - e), 32 - e));
    }
  }

  lemma UnrotateIsBijective(w: bv32, e: bv32)
    requires e < 32
    ensures Rotate(Unrotate(w, e), e) == w
  {
    hide Up, Down, Or;
    if e > 0 {
      var f := 32 - e;
      ShiftsDistribute(Down(w, e), Up(w, f), e);
      ShiftsDistribute(Down(w, e), Up(w, f), f);
      NothingIsLeft(w, f);
      HalvesMakeWhole(w, f);
      OrOf(Up(Down(w, e), e), Down(Up(w, f), f));
    }
  }

  function Xor3(a: bv32, b: bv32, c: bv32): bv32 {
    a ^ b ^ c
  }

  lemma XorCancels(a: bv32, b: bv32, c: bv32)
    ensures Xor3(Xor3(a, b, c), a, b) == c && Xor3(Xor3(a, b, c), b, c) == a
  {
  }

  /** The five other cells folded into one. */
  datatype Taps = Taps(a: bv32, b: bv32, c: bv32, d: bv32, e: bv32)

  function XorTaps(w: bv32, t: Taps): bv32 {
    Xor3(Xor3(w, t.a, t.b), t.c, t.d)
  }

  /** What is stored in a cell that held `cell`, and how to take either ingredient out again. */
  function Fold(w: bv32, e: bv32, t: Taps, cell: bv32): bv32
    requires e < 32
  {
    Twist(Xor3(XorTaps(Rotate(w, e), t), t.e, cell))
  }

  function CellOf(x: bv32, w: bv32, e: bv32, t: Taps): bv32
    requires e < 32
  {
    Xor3(Untwist(x), XorTaps(Rotate(w, e), t), t.e)
  }

  function WordOf(x: bv32, e: bv32, t: Taps, cell: bv32): bv32
    requires e < 32
  {
    Unrotate(Xor3(Xor3(Xor3(Untwist(x), t.e, cell), t.c, t.d), t.a, t.b), e)
  }

  /** The old cell and the word both come back from the folded value. */
  lemma FoldIsBijective(w: bv32, e: bv32, t: Taps, cell: bv32)
    requires e < 32
    ensures CellOf(Fold(w, e, t, cell), w, e, t) == cell
    ensures WordOf(Fold(w, e, t, cell), e, t, cell) == w
  {
    hide Twist, Untwist, Rotate, Unrotate, Xor3;
    var r := Rotate(w, e);
    TwistIsBijective(Xor3(XorTaps(r, t), t.e, cell));
    XorCancels(XorTaps(r, t), t.e, cell);
    XorCancels(Xor3(r, t.a, t.b), t.c, t.d);
    XorCancels(r, t.a, t.b);
    RotateIsBijective(w, e);
  }

  lemma WordOfIsFolded(x: bv32, e: bv32, t: Taps, cell: bv32)
    requires e < 32
    ensures Fold(WordOf(x, e, t, cell), e, t, cell) == x
  {
    hide Twist, Untwist, Rotate, Unrotate, Xor3;
    var y := Xor3(Untwist(x), t.e, cell);
    UnrotateIsBijective(Xor3(Xor3(y, t.c, t.d), t.a, t.b), e);
    XorCancels(Xor3(y, t.c, t.d), t.a, t.b);
    XorCancels(y, t.c, t.d);
    XorCancels(Untwist(x), t.e, cell);
    TwistIsBijective(x);
  }

  // ---------------------------------------------------------------- the pool

  const SIZE: nat := 32

  datatype Pool = Pool(cells: seq<bv32>, rotate: bv32, ptr: nat)

  predicate IsPool(p: Pool) {
    |p.cells| == SIZE && p.rotate < 32 && p.ptr < SIZE
  }

  function Target(p: Pool): (i: nat)
    requires IsPool(p)
    ensures i < SIZE
  {
    (p.ptr + 31) % SIZE
  }

  function TapsOf(cells: seq<bv32>, i: nat): Taps
    requires |cells| == SIZE
  {
    Taps(cells[(i + 26) % SIZE], cells[(i + 20) % SIZE], cells[(i + 14) % SIZE],
         cells[(i + 7) % SIZE], cells[(i + 1) % SIZE])
  }

  /** The rotation advances by 7 words, and by 14 when the pool wraps around. */
  function NextRotate(e: bv32, i: nat): (r: bv32)
    requires e < 32
    ensures r < 32
  {
    (e + (if i != 0 then 7 else 14)) & 31
  }

  function Mix(p: Pool, w: bv32): (q: Pool)
    requires IsPool(p)
    ensures IsPool(q)
  {
    var i := Target(p);
    Pool(p.cells[i := Fold(w, p.rotate, TapsOf(p.cells, i), p.cells[i])], NextRotate(p.rotate, i), i)
  }

  function MixAll(p: Pool, ws: seq<bv32>): (q: Pool)
    requires IsPool(p)
    ensures IsPool(q)
    decreases ws
  {
    if ws == [] then p else MixAll(Mix(p, ws[0]), ws[1..])
  }

  class EntropyPool {
    const epool: array<bv32>
    var erotate: bv32
    var eadd_ptr: nat

    ghost predicate Valid()
      reads this, epool
    {
      IsPool(View())
    }

    ghost function View(): Pool
      reads this, epool
    {
      Pool(epool[..], erotate, eadd_ptr)
    }

    constructor ()
      ensures Valid() && fresh(epool)
      ensures View() == Pool(seq(SIZE, _ => 0), 0, 0)
    {
      epool := new bv32[SIZE](_ => 0);
      erotate := 0;
      eadd_ptr := 0;
      new;
      assert epool[..] == seq(SIZE, _ => 0);
    }

    /** One turn of the word loop. */
    method AddWord(word: bv32)
      requires Valid()
      modifies this, epool
      ensures Valid() && View() == Mix(old(View()), word)
    {
      hide Twist, Rotate, Xor3, NextRotate;
      ghost var before := View();
      var w := Rotate(word, erotate);
      eadd_ptr := (eadd_ptr + 31) % SIZE;
      var i := eadd_ptr;
      erotate := NextRotate(erotate, i);
      w := Xor3(w, epool[(i + 26) % SIZE], epool[(i + 20) % SIZE]);
      w := Xor3(w, epool[(i + 14) % SIZE], epool[(i + 7) % SIZE]);
      w := Xor3(w, epool[(i + 1) % SIZE], epool[i]);
      assert w == Xor3(XorTaps(Rotate(word, before.rotate), TapsOf(before.cells, i)), TapsOf(before.cells, i).e, before.cells[i]);
      epool[i] := Twist(w);
      assert epool[..] == before.cells[i := Twist(w)];
    }

    method AddEntropy(words: seq<bv32>)
      requires Valid()
      modifies this, epool
      ensures Valid() && View() == MixAll(old(View()), words)
    {
      hide Mix;
      for n := 0 to |words|
        invariant Valid() && MixAll(old(View()), words) == MixAll(View(), words[n..])
      {
        AddWord(words[n]);
        assert words[n..][1..] == words[n + 1..];
      }
    }
  }

  // ---------------------------------------------------------------- nothing is lost

  lemma TapsIgnoreTarget(cells: seq<bv32>, i: nat, x: bv32)
    requires |cells| == SIZE && i < SIZE
    ensures TapsOf(cells[i := x], i) == TapsOf(cells, i)
  {
  }

  /** The pool before a word was mixed, from the pool after it. */
  function Unmix(q: Pool, w: bv32, rotate: bv32, ptr: nat): Pool
    requires IsPool(q) && rotate < 32
  {
    Pool(q.cells[q.ptr := CellOf(q.cells[q.ptr], w, rotate, TapsOf(q.cells, q.ptr))], rotate, ptr)
  }

  lemma MixCanBeUndone(p: Pool, w: bv32)
    requires IsPool(p)
    ensures Unmix(Mix(p, w), w, p.rotate, p.ptr) == p
  {
    hide Fold, CellOf, TapsOf;
    var i := Target(p);
    var x := Fold(w, p.rotate, TapsOf(p.cells, i), p.cells[i]);
    FoldIsBijective(w, p.rotate, TapsOf(p.cells, i), p.cells[i]);
    TapsIgnoreTarget(p.cells, i, x);
    assert p.cells[i := x][i := p.cells[i]] == p.cells;
  }

  /** For every input the map from old pool to new pool is injective. */
  lemma {:induction false} MixingIsInjective(p: Pool, q: Pool, ws: seq<bv32>)
    requires IsPool(p) && IsPool(q) && p.rotate == q.rotate && p.ptr == q.ptr
    requires MixAll(p, ws) == MixAll(q, ws)
    ensures p == q
    decreases ws
  {
    hide Fold, CellOf, TapsOf;
    if ws != [] {
      MixingIsInjective(Mix(p, ws[0]), Mix(q, ws[0]), ws[1..]);
      MixCanBeUndone(p, ws[0]);
      MixCanBeUndone(q, ws[0]);
    }
  }

  /** The word that puts `x` into the next cell. */
  function WordFor(p: Pool, x: bv32): bv32
    requires IsPool(p)
  {
    WordOf(x, p.rotate, TapsOf(p.cells, Target(p)), p.cells[Target(p)])
  }

  lemma WordForIsInverse(p: Pool, w: bv32)
    requires IsPool(p)
    ensures WordFor(p, Mix(p, w).cells[Target(p)]) == w
    ensures Mix(p, WordFor(p, w)).cells[Target(p)] == w
  {
    hide Fold, WordOf, TapsOf;
    var i := Target(p);
    FoldIsBijective(w, p.rotate, TapsOf(p.cells, i), p.cells[i]);
    WordOfIsFolded(w, p.rotate, TapsOf(p.cells, i), p.cells[i]);
  }

  /** How many words until cell j is written, from 1 to 32. */
  function Distance(ptr: nat, j: nat): (d: nat)
    requires ptr < SIZE && j < SIZE
    ensures 1 <= d <= SIZE
  {
    if j < ptr then ptr - j else ptr + SIZE - j
  }

  lemma DistanceShrinks(ptr: nat, j: nat)
    requires ptr < SIZE && j < SIZE
    ensures j == (ptr + 31) % SIZE <==> Distance(ptr, j) == 1
    ensures Distance((ptr + 31) % SIZE, j) == if Distance(ptr, j) == 1 then SIZE else Distance(ptr, j) - 1
  {
    assert (ptr + 31) % SIZE == if ptr == 0 then 31 else ptr - 1;
  }

  lemma {:induction false} CellIsUntouched(p: Pool, ws: seq<bv32>, j: nat)
    requires IsPool(p) && j < SIZE && |ws| < Distance(p.ptr, j)
    ensures MixAll(p, ws).cells[j] == p.cells[j]
    decreases ws
  {
    hide Fold, TapsOf, NextRotate, Distance;
    if ws != [] {
      DistanceShrinks(p.ptr, j);
      CellIsUntouched(Mix(p, ws[0]), ws[1..], j);
    }
  }

  /** Reads the mixed words back from the first state and the final cells. */
  function Recover(p: Pool, cells: seq<bv32>, n: nat): seq<bv32>
    requires IsPool(p) && |cells| == SIZE
    decreases n
  {
    if n == 0 then []
    else
      var w := WordFor(p, cells[Target(p)]);
      [w] + Recover(Mix(p, w), cells, n - 1)
  }

  /** From a fixed state, up to 32 mixed words can be recovered from the final pool. */
  lemma {:induction false} WordsAreRecoverable(p: Pool, ws: seq<bv32>)
    requires IsPool(p) && |ws| <= SIZE
    ensures Recover(p, MixAll(p, ws).cells, |ws|) == ws
    decreases ws
  {
    hide Fold, TapsOf, WordFor;
    if ws != [] {
      var q := Mix(p, ws[0]);
      DistanceShrinks(p.ptr, Target(p));
      CellIsUntouched(q, ws[1..], Target(p));
      WordForIsInverse(p, ws[0]);
      WordsAreRecoverable(q, ws[1..]);
    }
  }

  /** Words that clear the next n cells. */
  function Clearing(p: Pool, n: nat): (ws: seq<bv32>)
    requires IsPool(p)
    ensures |ws| == n
    decreases n
  {
    if n == 0 then [] else [WordFor(p, 0)] + Clearing(Mix(p, WordFor(p, 0)), n - 1)
  }

  lemma ClearingStep(p: Pool, n: nat)
    requires IsPool(p) && n > 0
    ensures var q := Mix(p, WordFor(p, 0));
            q.ptr == Target(p) && MixAll(p, Clearing(p, n)) == MixAll(q, Clearing(q, n - 1))
  {
    hide WordFor, Fold, TapsOf, NextRotate;
    assert Clearing(p, n)[1..] == Clearing(Mix(p, WordFor(p, 0)), n - 1);
  }

  lemma {:induction false} ClearingClears(p: Pool, n: nat, j: nat)
    requires IsPool(p) && j < SIZE && Distance(p.ptr, j) <= n <= SIZE
    ensures MixAll(p, Clearing(p, n)).cells[j] == 0
    decreases n
  {
    hide Fold, TapsOf, WordFor, NextRotate, Distance, Clearing, MixAll, Mix;
    DistanceShrinks(p.ptr, j);
    var q := Mix(p, WordFor(p, 0));
    ClearingStep(p, n);
    WordForIsInverse(p, 0);
    if j == Target(p) {
      CellIsUntouched(q, Clearing(q, n - 1), j);
    } else {
      ClearingClears(q, n - 1, j);
    }
  }

  lemma {:induction false} StepsAreIndependentOfWords(p: Pool, q: Pool, ws: seq<bv32>, vs: seq<bv32>)
    requires IsPool(p) && IsPool(q) && p.rotate == q.rotate && p.ptr == q.ptr && |ws| == |vs|
    ensures MixAll(p, ws).rotate == MixAll(q, vs).rotate && MixAll(p, ws).ptr == MixAll(q, vs).ptr
    decreases ws
  {
    hide Fold, TapsOf;
    if ws != [] {
      StepsAreIndependentOfWords(Mix(p, ws[0]), Mix(q, vs[0]), ws[1..], vs[1..]);
    }
  }

  /** And 32 is the limit: from every state two different 33-word inputs give the same pool. */
  lemma ThirtyThreeWordsCollide(p: Pool) returns (ws: seq<bv32>, vs: seq<bv32>)
    requires IsPool(p)
    ensures |ws| == |vs| == SIZE + 1 && ws != vs && MixAll(p, ws) == MixAll(p, vs)
  {
    hide Fold, TapsOf, WordFor, Clearing;
    var a, b := Mix(p, 0), Mix(p, 1);
    ws, vs := [0] + Clearing(a, SIZE), [1] + Clearing(b, SIZE);
    assert ws[0] != vs[0];
    assert ws[1..] == Clearing(a, SIZE) && vs[1..] == Clearing(b, SIZE);
    forall j | 0 <= j < SIZE ensures MixAll(p, ws).cells[j] == 0 == MixAll(p, vs).cells[j] {
      ClearingClears(a, SIZE, j);
      ClearingClears(b, SIZE, j);
    }
    StepsAreIndependentOfWords(a, b, ws[1..], vs[1..]);
  }

  // ---------------------------------------------------------------- the rotation

  /** So many steps of seven. */
  function Turned(e: bv32, n: nat): (r: bv32)
    requires e < 32
    ensures r < 32
    decreases n
  {
    if n == 0 then e else Turned((e + 7) & 31, n - 1)
  }

  lemma {:induction false} TurnedTwice(e: bv32, a: nat, b: nat)
    requires e < 32
    ensures Turned(Turned(e, a), b) == Turned(e, a + b)
    decreases a
  {
    if a > 0 {
      TurnedTwice((e + 7) & 31, a - 1, b);
    }
  }

  lemma NextRotateTurns(e: bv32, i: nat)
    requires e < 32
    ensures NextRotate(e, i) == Turned(e, if i == 0 then 2 else 1)
  {
    assert Turned(e, 2) == Turned((e + 7) & 31, 1) == (((e + 7) & 31) + 7) & 31;
    assert Turned(e, 1) == (e + 7) & 31;
  }

  lemma OneTurn(e: bv32)
    requires e < 32
    ensures Turned(e, 1) == (e + 7) & 31
  {
    assert Turned(e, 1) == Turned((e + 7) & 31, 0);
  }

  /** Twice as many steps turn by twice as much. */
  lemma TurnedDouble(e: bv32, n: nat, d: bv32)
    requires e < 32 && d < 32
    requires forall f: bv32 :: f < 32 ==> Turned(f, n) == (f + d) & 31
    ensures Turned(e, n + n) == (e + d + d) & 31
  {
    TurnedTwice(e, n, n);
    assert (((e + d) & 31) + d) & 31 == (e + d + d) & 31;
  }

  lemma FullCircle(e: bv32)
    requires e < 32
    ensures Turned(e, 32) == e
  {
    forall f: bv32 | f < 32 ensures Turned(f, 1) == (f + 7) & 31 {
      OneTurn(f);
    }
    forall f: bv32 | f < 32 ensures Turned(f, 2) == (f + 14) & 31 {
      TurnedDouble(f, 1, 7);
    }
    forall f: bv32 | f < 32 ensures Turned(f, 4) == (f + 28) & 31 {
      TurnedDouble(f, 2, 14);
    }
    forall f: bv32 | f < 32 ensures Turned(f, 8) == (f + 24) & 31 {
      TurnedDouble(f, 4, 28);
    }
    forall f: bv32 | f < 32 ensures Turned(f, 16) == (f + 16) & 31 {
      TurnedDouble(f, 8, 24);
    }
    TurnedDouble(e, 16, 16);
  }

  lemma {:induction false} WordsTurn(p: Pool, ws: seq<bv32>)
    requires IsPool(p) && |ws| <= SIZE
    ensures MixAll(p, ws).rotate == Turned(p.rotate, if |ws| >= Distance(p.ptr, 0) then |ws| + 1 else |ws|)
    ensures MixAll(p, ws).ptr == if p.ptr >= |ws| then p.ptr - |ws| else p.ptr + SIZE - |ws|
    decreases ws
  {
    hide Fold, TapsOf, NextRotate;
    if ws != [] {
      var q := Mix(p, ws[0]);
      NextRotateTurns(p.rotate, Target(p));
      WordsTurn(q, ws[1..]);
      hide Turned;
      var step, n := if Target(p) == 0 then 2 else 1, |ws| - 1;
      TurnedTwice(p.rotate, step, if n >= Distance(q.ptr, 0) then n + 1 else n);
    }
  }

  /** Thirty-two words later it is the same cell's turn, with a rotation seven further. */
  lemma NextRound(p: Pool, ws: seq<bv32>)
    requires IsPool(p) && |ws| == SIZE
    ensures MixAll(p, ws).ptr == p.ptr && MixAll(p, ws).rotate == (p.rotate + 7) & 31
  {
    hide MixAll, Turned, Distance;
    WordsTurn(p, ws);
    FullCircle(p.rotate);
    TurnedTwice(p.rotate, 32, 1);
    OneTurn(p.rotate);
  }
}
