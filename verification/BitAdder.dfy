/** Addition of shared numbers bit by bit, GC/BitAdder.hpp.  Shares stand for the bits they hide, which
    are added as in GF(2); of the bits that share a word, one is modelled. */
module BitAdder {
  import opened Arith
  import opened OnlineOp

  /** summands[i][k][j]: bit i of operand k of item j. */
  type Summands = seq<seq<seq<int>>>

  function Plus(a: int, b: int): int { (a + b) % 2 }

  /** Bit i of operand k of an item. */
  function BitOf(s: Summands, i: nat, k: nat, item: nat): int {
    if i < |s| && k < |s[i]| && item < |s[i][k]| then s[i][k][item] else 0
  }

  /** The bits of operand k of an item. */
  function Operand(s: Summands, k: nat, item: nat): (r: seq<int>)
    ensures |r| == |s|
  {
    seq(|s|, i requires 0 <= i < |s| => BitOf(s, i, k, item))
  }

  function Value(s: Summands, k: nat, item: nat): int { BitsVal(Operand(s, k, item)) }

  /** m operands of `items` items, all bits. */
  ghost predicate Complete(s: Summands, m: nat, items: nat) {
    && (forall i :: 0 <= i < |s| ==> |s[i]| == m)
    && (forall i, k :: 0 <= i < |s| && 0 <= k < m ==> |s[i][k]| >= items)
    && (forall i, k, j :: 0 <= i < |s| && 0 <= k < m && 0 <= j < items ==> Bit(s[i][k][j]))
  }

  lemma OperandBits(s: Summands, m: nat, items: nat, k: nat, item: nat)
    requires Complete(s, m, items) && k < m && item < items
    ensures Bits(Operand(s, k, item))
  {}

  /** The value of an operand by plain indexing. */
  lemma OperandMeans(s: Summands, m: nat, items: nat, k: nat, item: nat)
    requires Complete(s, m, items) && k < m && item < items
    ensures Value(s, k, item) == BitsVal(seq(|s|, i requires 0 <= i < |s| => s[i][k][item]))
  {
    assert Operand(s, k, item) == seq(|s|, i requires 0 <= i < |s| => s[i][k][item]);
  }

  // ----- two operands

  function CarryOut(a: int, b: int, carry: int): int { Plus(a, Plus(a, b) * Plus(carry, a)) }

  /** The first i result bits and the carry make up the sum of the first i bits. */
  ghost predicate Partial(row: seq<int>, carry: int, x: seq<int>, y: seq<int>, i: nat) {
    && i <= |row| && i <= |x| && i <= |y| && Bits(row[..i]) && Bit(carry)
    && BitsVal(row[..i]) + carry * Pow2(i) == BitsVal(x[..i]) + BitsVal(y[..i])
  }

  lemma FullAdderBit(a: int, b: int, carry: int)
    requires Bit(a) && Bit(b) && Bit(carry)
    ensures Bit(Plus(Plus(a, b), carry)) && Bit(CarryOut(a, b, carry))
    ensures Plus(Plus(a, b), carry) + 2 * CarryOut(a, b, carry) == a + b + carry
  {}

  lemma PartialStep(row: seq<int>, carry: int, x: seq<int>, y: seq<int>, i: nat, row': seq<int>)
    requires Partial(row, carry, x, y, i) && i < |x| && i < |y| && Bit(x[i]) && Bit(y[i])
    requires |row'| == |row| > i && row'[..i] == row[..i] && row'[i] == Plus(Plus(x[i], y[i]), carry)
    ensures Partial(row', CarryOut(x[i], y[i], carry), x, y, i + 1)
  {
    FullAdderBit(x[i], y[i], carry);
    BitsValSnoc(row', i);
    BitsValSnoc(x, i);
    BitsValSnoc(y, i);
    BitsSnoc(row', i);
    CarryMoves(BitsVal(row[..i]), BitsVal(x[..i]), BitsVal(y[..i]), row'[i], x[i], y[i], carry, CarryOut(x[i], y[i], carry), Pow2(i));
  }

  lemma BitsSnoc(row: seq<int>, i: nat)
    requires i < |row| && Bits(row[..i]) && Bit(row[i])
    ensures Bits(row[..i + 1])
  {
    var t := row[..i + 1];
    forall k | 0 <= k < |t| ensures Bit(t[k]) {
      if k < i { assert row[..i][k] == row[k]; }
    }
  }

  lemma CarryMoves(r: int, x: int, y: int, s: int, a: int, b: int, c: int, c': int, w: int)
    requires r + c * w == x + y && s + 2 * c' == a + b + c
    ensures r + s * w + c' * (2 * w) == (x + a * w) + (y + b * w)
  {
    assert (s + 2 * c') * w == (a + b + c) * w;
  }

  /** One bit position of all items: the rows get the sum bits, and the carries are renewed by one round
      of multiplications. */
  method Column(rows0: seq<seq<int>>, i: nat, a: seq<int>, b: seq<int>, carries0: seq<int>)
    returns (rows: seq<seq<int>>, carries: seq<int>)
    requires |a| == |b| == |carries0| == |rows0| && forall j :: 0 <= j < |rows0| ==> i < |rows0[j]|
    ensures |rows| == |carries| == |rows0|
    ensures forall j :: 0 <= j < |rows| ==> rows[j] == rows0[j][i := Plus(Plus(a[j], b[j]), carries0[j])]
    ensures forall j :: 0 <= j < |rows| ==> carries[j] == CarryOut(a[j], b[j], carries0[j])
  {
    rows, carries := rows0, carries0;
    var products: seq<int> := [];
    for j := 0 to |rows0|
      invariant |rows| == |rows0| && |products| == j
      invariant forall k :: 0 <= k < |rows| ==>
        rows[k] == if k < j then rows0[k][i := Plus(Plus(a[k], b[k]), carries0[k])] else rows0[k]
      invariant forall k :: 0 <= k < j ==> products[k] == Plus(a[k], b[k]) * Plus(carries0[k], a[k])
    {
      rows := rows[j := rows[j][i := Plus(Plus(a[j], b[j]), carries[j])]];
      products := products + [Plus(a[j], b[j]) * Plus(carries[j], a[j])];
    }
    for j := 0 to |rows0|
      invariant |carries| == |rows0|
      invariant forall k :: 0 <= k < j ==> carries[k] == CarryOut(a[k], b[k], carries0[k])
    {
      carries := carries[j := Plus(a[j], products[j])];
    }
  }

  function Resized(row: seq<int>, n: nat): (r: seq<int>)
    ensures |r| == n
  {
    if n <= |row| then row[..n] else row + seq(n - |row|, _ => 0)
  }

  /** The rows hold the exact sums of the first two operands. */
  ghost predicate Sums(rows: seq<seq<int>>, s: Summands, inputBegin: nat) {
    forall j :: 0 <= j < |rows| ==>
      && |rows[j]| == |s| + 1 && Bits(rows[j])
      && BitsVal(rows[j]) == Value(s, 0, inputBegin + j) + Value(s, 1, inputBegin + j)
  }

  ghost predicate PartialRows(rows: seq<seq<int>>, carries: seq<int>, s: Summands, inputBegin: nat, i: nat) {
    && |carries| == |rows|
    && forall j :: 0 <= j < |rows| ==>
      && |rows[j]| == |s| + 1
      && Partial(rows[j], carries[j], Operand(s, 0, inputBegin + j), Operand(s, 1, inputBegin + j), i)
  }

  /** Items begin to end of res; the loops work on this part of res. */
  method AddTwo(res0: seq<seq<int>>, s: Summands, begin: nat, end: nat, inputBegin: nat) returns (res: seq<seq<int>>)
    requires begin <= end <= |res0| && Complete(s, 2, inputBegin + end - begin)
    ensures |res| == |res0| && res[..begin] == res0[..begin] && res[end..] == res0[end..]
    ensures Sums(res[begin..end], s, inputBegin)
    ensures forall h :: begin <= h < end ==>
      && |res[h]| == |s| + 1 && Bits(res[h])
      && BitsVal(res[h]) == BitsVal(seq(|s|, i requires 0 <= i < |s| => s[i][0][inputBegin + h - begin]))
                            + BitsVal(seq(|s|, i requires 0 <= i < |s| => s[i][1][inputBegin + h - begin]))
  {
    hide BitsVal;
    var rows := AddRows(res0[begin..end], s, inputBegin);
    res := res0[..begin] + rows + res0[end..];
    assert res[begin..end] == rows;
    forall h | begin <= h < end
      ensures && |res[h]| == |s| + 1 && Bits(res[h])
              && BitsVal(res[h]) == BitsVal(seq(|s|, i requires 0 <= i < |s| => s[i][0][inputBegin + h - begin]))
                                    + BitsVal(seq(|s|, i requires 0 <= i < |s| => s[i][1][inputBegin + h - begin]))
    {
      assert res[h] == rows[h - begin];
      OperandMeans(s, 2, inputBegin + end - begin, 0, inputBegin + h - begin);
      OperandMeans(s, 2, inputBegin + end - begin, 1, inputBegin + h - begin);
    }
  }

  method AddRows(rows0: seq<seq<int>>, s: Summands, inputBegin: nat) returns (rows: seq<seq<int>>)
    requires Complete(s, 2, inputBegin + |rows0|)
    ensures |rows| == |rows0| && Sums(rows, s, inputBegin)
  {
    var nBits, nItems := |s|, |rows0|;
    rows := ResizeRows(rows0, nBits + 1);
    var carries := seq(nItems, _ => 0);
    NoBitsYet(rows, carries, s, inputBegin);
    for i := 0 to nBits
      invariant |rows| == nItems && PartialRows(rows, carries, s, inputBegin, i)
    {
      rows, carries := AddColumn(rows, carries, s, inputBegin, i);
    }
    ghost var before := rows;
    rows := StoreCarries(rows, carries, nBits);
    FinalCarry(before, carries, rows, s, inputBegin);
  }

  /** Bit i of all items. */
  method AddColumn(rows0: seq<seq<int>>, carries0: seq<int>, s: Summands, inputBegin: nat, i: nat)
    returns (rows: seq<seq<int>>, carries: seq<int>)
    requires PartialRows(rows0, carries0, s, inputBegin, i) && i < |s| && Complete(s, 2, inputBegin + |rows0|)
    ensures |rows| == |rows0| && PartialRows(rows, carries, s, inputBegin, i + 1)
  {
    var nItems := |rows0|;
    var a, b := s[i][0][inputBegin..inputBegin + nItems], s[i][1][inputBegin..inputBegin + nItems];
    rows, carries := Column(rows0, i, a, b, carries0);
    RowsStep(rows0, carries0, rows, carries, s, a, b, inputBegin, i);
  }

  method ResizeRows(rows0: seq<seq<int>>, n: nat) returns (rows: seq<seq<int>>)
    ensures |rows| == |rows0| && forall j :: 0 <= j < |rows| ==> |rows[j]| == n
  {
    rows := rows0;
    for j := 0 to |rows0|
      invariant |rows| == |rows0| && forall k :: 0 <= k < j ==> |rows[k]| == n
    {
      rows := rows[j := Resized(rows[j], n)];
    }
  }

  method StoreCarries(rows0: seq<seq<int>>, carries: seq<int>, i: nat) returns (rows: seq<seq<int>>)
    requires |carries| == |rows0| && forall j :: 0 <= j < |rows0| ==> i < |rows0[j]|
    ensures |rows| == |rows0| && forall j :: 0 <= j < |rows| ==> rows[j] == rows0[j][i := carries[j]]
  {
    rows := rows0;
    for j := 0 to |rows0|
      invariant |rows| == |rows0|
      invariant forall k :: 0 <= k < |rows| ==> rows[k] == if k < j then rows0[k][i := carries[k]] else rows0[k]
    {
      rows := rows[j := rows[j][i := carries[j]]];
    }
  }

  lemma NoBitsYet(rows: seq<seq<int>>, carries: seq<int>, s: Summands, inputBegin: nat)
    requires |carries| == |rows| && (forall j :: 0 <= j < |rows| ==> |rows[j]| == |s| + 1 && carries[j] == 0)
    ensures PartialRows(rows, carries, s, inputBegin, 0)
  {}

  lemma RowsStep(rows: seq<seq<int>>, carries: seq<int>, rows': seq<seq<int>>, carries': seq<int>, s: Summands,
                 a: seq<int>, b: seq<int>, inputBegin: nat, i: nat)
    requires PartialRows(rows, carries, s, inputBegin, i) && i < |s| && Complete(s, 2, inputBegin + |rows|)
    requires |rows'| == |carries'| == |rows|
    requires a == s[i][0][inputBegin..inputBegin + |rows|] && b == s[i][1][inputBegin..inputBegin + |rows|]
    requires forall j :: 0 <= j < |rows| ==> rows'[j] == rows[j][i := Plus(Plus(a[j], b[j]), carries[j])]
    requires forall j :: 0 <= j < |rows| ==> carries'[j] == CarryOut(a[j], b[j], carries[j])
    ensures PartialRows(rows', carries', s, inputBegin, i + 1)
  {
    forall j | 0 <= j < |rows'|
      ensures |rows'[j]| == |s| + 1
      ensures Partial(rows'[j], carries'[j], Operand(s, 0, inputBegin + j), Operand(s, 1, inputBegin + j), i + 1)
    {
      var x, y := Operand(s, 0, inputBegin + j), Operand(s, 1, inputBegin + j);
      assert x[i] == a[j] && y[i] == b[j] && Bit(s[i][0][inputBegin + j]) && Bit(s[i][1][inputBegin + j]);
      PartialStep(rows[j], carries[j], x, y, i, rows'[j]);
    }
  }

  lemma FinalCarry(rows: seq<seq<int>>, carries: seq<int>, rows': seq<seq<int>>, s: Summands, inputBegin: nat)
    requires PartialRows(rows, carries, s, inputBegin, |s|) && |rows'| == |rows|
    requires forall j :: 0 <= j < |rows| ==> |rows[j]| == |s| + 1 && rows'[j] == rows[j][|s| := carries[j]]
    ensures Sums(rows', s, inputBegin)
  {
    forall j | 0 <= j < |rows'|
      ensures |rows'[j]| == |s| + 1 && Bits(rows'[j])
      ensures BitsVal(rows'[j]) == Value(s, 0, inputBegin + j) + Value(s, 1, inputBegin + j)
    {
      CarryAsTopBit(rows[j], carries[j], Operand(s, 0, inputBegin + j), Operand(s, 1, inputBegin + j), rows'[j]);
    }
  }

  lemma CarryAsTopBit(row: seq<int>, carry: int, x: seq<int>, y: seq<int>, row': seq<int>)
    requires Partial(row, carry, x, y, |x|) && |row| == |x| + 1 == |y| + 1 && row' == row[|x| := carry]
    ensures Bits(row') && BitsVal(row') == BitsVal(x) + BitsVal(y)
  {
    hide BitsVal, Pow2;
    assert row'[..|x|] == row[..|x|];
    BitsSnoc(row', |x|);
    BitsValSnoc(row', |x|);
    assert row'[..|x| + 1] == row' && x[..|x|] == x && y[..|x|] == y;
  }

  // ----- more operands

  function CeilLog2(n: nat): (r: nat)
    requires n >= 1
    ensures Pow2(r) >= n && (r > 0 ==> Pow2(r - 1) < n)
  {
    if n == 1 then 0 else 1 + CeilLog2((n + 1) / 2)
  }

  /** The operand values of an item. */
  function Values(s: Summands, m: nat, item: nat): (r: seq<int>)
    ensures |r| == m
  {
    seq(m, k requires 0 <= k < m => Value(s, k, item))
  }

  /** Adding one value after the other, dropping the carry out of n bits before every further addition. */
  function Accumulated(v: seq<int>, n: nat, m: nat): int
    requires 2 <= m <= |v|
  {
    if m == 2 then v[0] + v[1] else Accumulated(v, n, m - 1) % Pow2(n) + v[m - 1]
  }

  /** The two operands of every item currently add up to the accumulation of the first m values. */
  ghost predicate Tracks(mine: Summands, s: Summands, items: nat, inputBegin: nat, total: nat, m: nat) {
    && 2 <= m <= total
    && forall j: nat {:trigger Value(mine, 0, j)} :: j < items ==>
      Value(mine, 0, j) + Value(mine, 1, j) == Accumulated(Values(s, total, inputBegin + j), |mine|, m)
  }

  /** Rows of bit vectors: the slices of operand k, padded with zeros. */
  function Slices(s: Summands, k: nat, n: nat, inputBegin: nat, items: nat): (r: seq<seq<int>>)
    requires |s| <= n && (forall i :: 0 <= i < |s| ==> k < |s[i]| && inputBegin + items <= |s[i][k]|)
    ensures |r| == n
  {
    seq(n, i requires 0 <= i < n => if i < |s| then s[i][k][inputBegin..inputBegin + items] else seq(items, _ => 0))
  }

  /** The rows hold the accumulation of all m operands in n bits and a carry. */
  ghost predicate Accumulates(rows: seq<seq<int>>, s: Summands, m: nat, n: nat, inputBegin: nat)
    requires m >= 2
  {
    forall j :: 0 <= j < |rows| ==>
      && |rows[j]| == n + 1 && Bits(rows[j])
      && BitsVal(rows[j]) == Accumulated(Values(s, m, inputBegin + j), n, m)
  }

  /** The operand values of an item by plain indexing. */
  lemma ValuesMean(s: Summands, m: nat, items: nat, item: nat)
    requires Complete(s, m, items) && item < items
    ensures Values(s, m, item)
         == seq(m, k requires 0 <= k < m => BitsVal(seq(|s|, i requires 0 <= i < |s| => s[i][k][item])))
  {
    hide BitsVal;
    forall k | 0 <= k < m
      ensures Values(s, m, item)[k] == BitsVal(seq(|s|, i requires 0 <= i < |s| => s[i][k][item]))
    {
      OperandMeans(s, m, items, k, item);
    }
  }

  lemma EndTracks(rows: seq<seq<int>>, mine: Summands, s: Summands, m: nat, n: nat, inputBegin: nat)
    requires |mine| == n && m >= 2 && Sums(rows, mine, 0) && Tracks(mine, s, |rows|, inputBegin, m, m)
    ensures Accumulates(rows, s, m, n, inputBegin)
  {
    forall j | 0 <= j < |rows|
      ensures BitsVal(rows[j]) == Accumulated(Values(s, m, inputBegin + j), n, m)
    {
      assert BitsVal(rows[j]) == Value(mine, 0, 0 + j) + Value(mine, 1, 0 + j);
    }
  }

  /** The rounds in front of the last addition. */
  method AddAllButLast(s: Summands, m: nat, nBits: nat, inputBegin: nat, nItems: nat) returns (mine: Summands)
    requires |s| <= nBits && m >= 2 && Complete(s, m, inputBegin + nItems)
    ensures |mine| == nBits && Complete(mine, 2, nItems) && Tracks(mine, s, nItems, inputBegin, m, m)
  {
    mine := StartOperands(s, m, nBits, inputBegin, nItems);
    var myRes: seq<seq<int>> := seq(nItems, _ => []);
    for k := 2 to m
      invariant |mine| == nBits && Complete(mine, 2, nItems) && |myRes| == nItems
      invariant Tracks(mine, s, nItems, inputBegin, m, k)
    {
      myRes, mine := MultiRound(myRes, mine, s, m, k, nBits, inputBegin, nItems);
    }
  }

  method MultiAdd(res0: seq<seq<int>>, s: Summands, m: nat, begin: nat, end: nat, inputBegin: nat, players: nat)
    returns (res: seq<seq<int>>)
    requires begin <= end <= |res0| && m >= 2 && players >= 1 && |s| >= 1 && Complete(s, m, inputBegin + end - begin)
    ensures |res| == |res0| && res[..begin] == res0[..begin] && res[end..] == res0[end..]
    ensures Accumulates(res[begin..end], s, m, |s| + CeilLog2(players), inputBegin)
    ensures forall h :: begin <= h < end ==>
      var v := seq(m, k requires 0 <= k < m => BitsVal(seq(|s|, i requires 0 <= i < |s| => s[i][k][inputBegin + h - begin])));
      && |res[h]| == |s| + CeilLog2(players) + 1 && Bits(res[h])
      && BitsVal(res[h]) == Accumulated(v, |s| + CeilLog2(players), m)
      && (m <= players ==> BitsVal(res[h]) == SumUpTo(v, m))
  {
    hide BitsVal, Accumulated, SumUpTo, Values, CeilLog2;
    var nBits, nItems := |s| + CeilLog2(players), end - begin;
    var mine := AddAllButLast(s, m, nBits, inputBegin, nItems);
    res := AddTwo(res0, mine, begin, end, 0);
    EndTracks(res[begin..end], mine, s, m, nBits, inputBegin);
    forall h | begin <= h < end
      ensures
        var v := seq(m, k requires 0 <= k < m => BitsVal(seq(|s|, i requires 0 <= i < |s| => s[i][k][inputBegin + h - begin])));
        && |res[h]| == nBits + 1 && Bits(res[h]) && BitsVal(res[h]) == Accumulated(v, nBits, m)
        && (m <= players ==> BitsVal(res[h]) == SumUpTo(v, m))
    {
      assert res[h] == res[begin..end][h - begin];
      RowMeans(res[h], s, m, inputBegin + end - begin, players, inputBegin + h - begin);
    }
  }

  /** An accumulation by plain indexing: the sum of all operands unless there are more of them than players. */
  lemma RowMeans(row: seq<int>, s: Summands, m: nat, items: nat, players: nat, item: nat)
    requires m >= 2 && players >= 1 && Complete(s, m, items) && item < items
    requires BitsVal(row) == Accumulated(Values(s, m, item), |s| + CeilLog2(players), m)
    ensures var v := seq(m, k requires 0 <= k < m => BitsVal(seq(|s|, i requires 0 <= i < |s| => s[i][k][item])));
            && BitsVal(row) == Accumulated(v, |s| + CeilLog2(players), m)
            && (m <= players ==> BitsVal(row) == SumUpTo(v, m))
  {
    hide BitsVal, Accumulated, SumUpTo, Values, CeilLog2;
    ValuesMean(s, m, items, item);
    if m <= players { EnoughForPlayers(s, m, players, item); }
  }

  /** The first two operands, widened to n bits. */
  method StartOperands(s: Summands, m: nat, n: nat, inputBegin: nat, items: nat) returns (mine: Summands)
    requires |s| <= n && m >= 2 && Complete(s, m, inputBegin + items)
    ensures |mine| == n && Complete(mine, 2, items) && Tracks(mine, s, items, inputBegin, m, 2)
  {
    var first, second := Slices(s, 0, n, inputBegin, items), Slices(s, 1, n, inputBegin, items);
    mine := seq(n, i requires 0 <= i < n => [first[i], second[i]]);
    StartTracks(mine, s, m, n, inputBegin, items);
  }

  /** One round: the current two operands are added, and the next operand takes the second place. */
  method MultiRound(myRes0: seq<seq<int>>, mine0: Summands, s: Summands, m: nat, k: nat, nBits: nat, inputBegin: nat, nItems: nat)
    returns (myRes: seq<seq<int>>, mine: Summands)
    requires |s| <= nBits == |mine0| && 2 <= k < m && Complete(s, m, inputBegin + nItems) && |myRes0| == nItems
    requires Complete(mine0, 2, nItems) && Tracks(mine0, s, nItems, inputBegin, m, k)
    ensures |mine| == nBits && |myRes| == nItems && Complete(mine, 2, nItems)
    ensures Tracks(mine, s, nItems, inputBegin, m, k + 1)
  {
    myRes := AddTwo(myRes0, mine0, 0, nItems, 0);
    assert myRes[0..nItems] == myRes;
    var next := Slices(s, k, nBits, inputBegin, nItems);
    mine := NextOperands(myRes, next, nBits, nItems);
    RoundTracks(mine0, mine, myRes, s, m, k, nBits, inputBegin, nItems);
  }

  /** The results without their top bit become the first operands, the slices of an operand the second. */
  method NextOperands(myRes: seq<seq<int>>, next: seq<seq<int>>, nBits: nat, nItems: nat) returns (mine: Summands)
    requires |myRes| == nItems && |next| == nBits && forall j :: 0 <= j < nItems ==> |myRes[j]| == nBits + 1
    requires forall i :: 0 <= i < nBits ==> |next[i]| == nItems
    ensures |mine| == nBits
    ensures forall i :: 0 <= i < nBits ==>
      |mine[i]| == 2 && |mine[i][0]| == nItems && mine[i][1] == next[i]
    ensures forall i, j :: 0 <= i < nBits && 0 <= j < nItems ==> mine[i][0][j] == myRes[j][i]
  {
    mine := [];
    for i := 0 to nBits
      invariant |mine| == i
      invariant forall h :: 0 <= h < i ==> |mine[h]| == 2 && |mine[h][0]| == nItems && mine[h][1] == next[h]
      invariant forall h, j :: 0 <= h < i && 0 <= j < nItems ==> mine[h][0][j] == myRes[j][h]
    {
      var column: seq<int> := [];
      for j := 0 to nItems
        invariant |column| == j && forall h :: 0 <= h < j ==> column[h] == myRes[h][i]
      {
        column := column + [myRes[j][i]];
      }
      mine := mine + [[column, next[i]]];
    }
  }

  lemma {:induction false} PaddedValue(s: seq<int>, n: nat)
    ensures BitsVal(s + seq(n, _ => 0)) == BitsVal(s)
  {
    BitsValAppend(s, seq(n, _ => 0));
    ZerosValue(n);
  }

  lemma {:induction false} ZerosValue(n: nat)
    ensures BitsVal(seq(n, _ => 0)) == 0
  {
    if n > 0 {
      ZerosValue(n - 1);
      assert seq(n, _ => 0)[1..] == seq(n - 1, _ => 0);
    }
  }

  /** Padded slices have the value of the operand. */
  lemma SliceValue(mine: Summands, h: nat, s: Summands, k: nat, m: nat, n: nat, inputBegin: nat, items: nat, j: nat)
    requires |s| <= n == |mine| && k < m && h < 2 && j < items && Complete(s, m, inputBegin + items)
    requires forall i :: 0 <= i < n ==> |mine[i]| == 2 && mine[i][h] == Slices(s, k, n, inputBegin, items)[i]
    ensures Value(mine, h, j) == Value(s, k, inputBegin + j)
  {
    var x := Operand(s, k, inputBegin + j);
    assert Operand(mine, h, j) == x + seq(n - |s|, _ => 0);
    PaddedValue(x, n - |s|);
  }

  lemma StartTracks(mine: Summands, s: Summands, m: nat, n: nat, inputBegin: nat, items: nat)
    requires |s| <= n == |mine| && m >= 2 && Complete(s, m, inputBegin + items)
    requires forall i :: 0 <= i < n ==> mine[i] == [Slices(s, 0, n, inputBegin, items)[i], Slices(s, 1, n, inputBegin, items)[i]]
    ensures Complete(mine, 2, items) && Tracks(mine, s, items, inputBegin, m, 2)
  {
    forall j | 0 <= j < items
      ensures Value(mine, 0, j) + Value(mine, 1, j) == Accumulated(Values(s, m, inputBegin + j), n, 2)
    {
      SliceValue(mine, 0, s, 0, m, n, inputBegin, items, j);
      SliceValue(mine, 1, s, 1, m, n, inputBegin, items, j);
    }
  }

  lemma LowBitsValue(row: seq<int>, n: nat)
    requires Bits(row) && n <= |row|
    ensures BitsVal(row[..n]) == BitsVal(row) % Pow2(n)
  {
    assert row == row[..n] + row[n..];
    BitsValAppend(row[..n], row[n..]);
    BitsValBound(row[..n]);
    assert Pow2(n) * BitsVal(row[n..]) == BitsVal(row[n..]) * Pow2(n);
    ModUnique(BitsVal(row), Pow2(n), BitsVal(row[n..]), BitsVal(row[..n]));
  }

  lemma RoundTracks(before: Summands, mine: Summands, myRes: seq<seq<int>>, s: Summands, m: nat, k: nat, n: nat,
                    inputBegin: nat, items: nat)
    requires |s| <= n == |mine| == |before| && 2 <= k < m && Complete(s, m, inputBegin + items)
    requires Tracks(before, s, items, inputBegin, m, k) && Sums(myRes, before, 0) && |myRes| == items
    requires forall i :: 0 <= i < n ==>
      |mine[i]| == 2 && |mine[i][0]| == items && mine[i][1] == Slices(s, k, n, inputBegin, items)[i]
    requires forall i, j :: 0 <= i < n && 0 <= j < items ==> mine[i][0][j] == myRes[j][i]
    ensures Complete(mine, 2, items) && Tracks(mine, s, items, inputBegin, m, k + 1)
  {
    hide BitsVal, Pow2, Operand;
    forall i, j | 0 <= i < n && 0 <= j < items ensures Bit(mine[i][0][j]) {
      assert Bits(myRes[j]);
      assert Bit(myRes[j][i]);
    }
    forall j | 0 <= j < items
      ensures Value(mine, 0, j) + Value(mine, 1, j) == Accumulated(Values(s, m, inputBegin + j), n, k + 1)
    {
      assert BitsVal(myRes[j]) == Value(before, 0, 0 + j) + Value(before, 1, 0 + j);
      DroppedCarry(mine, myRes[j], n, j);
      SliceValue(mine, 1, s, k, m, n, inputBegin, items, j);
      assert Values(s, m, inputBegin + j)[k] == Value(s, k, inputBegin + j);
    }
  }

  /** Taking over the result bits without the carry reduces the value modulo 2^n. */
  lemma DroppedCarry(mine: Summands, row: seq<int>, n: nat, j: nat)
    requires Bits(row) && |row| == n + 1 && |mine| == n
    requires forall i :: 0 <= i < n ==> |mine[i]| >= 1 && j < |mine[i][0]| && mine[i][0][j] == row[i]
    ensures Value(mine, 0, j) == BitsVal(row) % Pow2(n)
  {
    assert Operand(mine, 0, j) == row[..n];
    LowBitsValue(row, n);
  }

  /** The dispatch: two operands directly, more through the accumulation. */
  method Add(res0: seq<seq<int>>, s: Summands, m: nat, begin: nat, end: nat, inputBegin: int, players: nat)
    returns (res: seq<seq<int>>)
    requires begin <= end <= |res0| && m >= 2 && players >= 1 && |s| >= 1
    requires Complete(s, m, (if inputBegin < 0 then begin else inputBegin) + end - begin)
    ensures |res| == |res0| && res[..begin] == res0[..begin] && res[end..] == res0[end..]
    ensures Accumulates(res[begin..end], s, m, if m > 2 then |s| + CeilLog2(players) else |s|,
                        if inputBegin < 0 then begin else inputBegin)
    ensures m <= players || m == 2 ==> forall h :: begin <= h < end ==>
      var item := if inputBegin < 0 then h else inputBegin + h - begin;
      && Bits(res[h])
      && BitsVal(res[h])
         == SumUpTo(seq(m, k requires 0 <= k < m => BitsVal(seq(|s|, i requires 0 <= i < |s| => s[i][k][item]))), m)
  {
    hide BitsVal, Accumulated, SumUpTo, CeilLog2, Complete, Sums, Accumulates;
    var from := if inputBegin < 0 then begin else inputBegin;
    if m > 2 {
      res := MultiAdd(res0, s, m, begin, end, from, players);
    } else {
      res := AddTwo(res0, s, begin, end, from);
      PairSums(res, s, m, begin, end, from);
    }
  }

  lemma PairSums(res: seq<seq<int>>, s: Summands, m: nat, begin: nat, end: nat, from: nat)
    requires begin <= end <= |res| && m == 2 && Complete(s, m, from + end - begin) && Sums(res[begin..end], s, from)
    ensures Accumulates(res[begin..end], s, m, |s|, from)
    ensures forall h :: begin <= h < end ==>
      && Bits(res[h])
      && BitsVal(res[h])
         == SumUpTo(seq(m, k requires 0 <= k < m => BitsVal(seq(|s|, i requires 0 <= i < |s| => s[i][k][from + h - begin]))), m)
  {
    hide BitsVal, Accumulated, SumUpTo;
    TwoAccumulate(res[begin..end], s, from);
    forall h | begin <= h < end
      ensures
        && Bits(res[h])
        && BitsVal(res[h])
           == SumUpTo(seq(m, k requires 0 <= k < m => BitsVal(seq(|s|, i requires 0 <= i < |s| => s[i][k][from + h - begin]))), m)
    {
      assert res[h] == res[begin..end][h - begin];
      TwoValues(s, m, from + end - begin, from + h - begin);
    }
  }

  lemma TwoAccumulate(rows: seq<seq<int>>, s: Summands, from: nat)
    requires Sums(rows, s, from)
    ensures Accumulates(rows, s, 2, |s|, from)
  {
    forall j | 0 <= j < |rows|
      ensures BitsVal(rows[j]) == Accumulated(Values(s, 2, from + j), |s|, 2)
    {
      assert Values(s, 2, from + j)[0] == Value(s, 0, from + j) && Values(s, 2, from + j)[1] == Value(s, 1, from + j);
    }
  }

  lemma TwoValues(s: Summands, m: nat, items: nat, item: nat)
    requires m == 2 && Complete(s, m, items) && item < items
    ensures Value(s, 0, item) + Value(s, 1, item)
         == SumUpTo(seq(m, k requires 0 <= k < m => BitsVal(seq(|s|, i requires 0 <= i < |s| => s[i][k][item]))), m)
  {
    hide BitsVal;
    ValuesMean(s, m, items, item);
    var v := Values(s, 2, item);
    assert SumUpTo(v, 2) == SumUpTo(v, 1) + v[1] && SumUpTo(v, 1) == SumUpTo(v, 0) + v[0];
  }

  // ----- when no carry is lost

  function SumUpTo(v: seq<int>, m: nat): int
    requires m <= |v|
  {
    if m == 0 then 0 else SumUpTo(v, m - 1) + v[m - 1]
  }

  /** Another value counts with the difference. */
  lemma {:induction false} SumReplaced(v: seq<int>, m: nat, k: nat, x: int)
    requires m <= |v| && k < |v|
    ensures SumUpTo(v[k := x], m) == SumUpTo(v, m) + if k < m then x - v[k] else 0
  {
    if m > 0 { SumReplaced(v, m - 1, k, x); }
  }

  /** All values have n bits. */
  ghost predicate Bounded(v: seq<int>, n: nat) { forall k :: 0 <= k < |v| ==> 0 <= v[k] < Pow2(n) }

  lemma {:induction false} SumBound(v: seq<int>, n: nat, m: nat)
    requires Bounded(v, n) && m <= |v|
    ensures 0 <= SumUpTo(v, m) <= m * (Pow2(n) - 1)
  {
    if m > 0 {
      SumBound(v, n, m - 1);
      assert m * (Pow2(n) - 1) == (m - 1) * (Pow2(n) - 1) + (Pow2(n) - 1);
    }
  }

  lemma {:induction false} AccumulatedIsSum(v: seq<int>, bits: nat, n: nat, m: nat)
    requires Bounded(v, bits) && 2 <= m <= |v| && (m - 1) * (Pow2(bits) - 1) < Pow2(n)
    ensures Accumulated(v, n, m) == SumUpTo(v, m)
  {
    if m == 2 {
      assert SumUpTo(v, 2) == SumUpTo(v, 1) + v[1] && SumUpTo(v, 1) == SumUpTo(v, 0) + v[0];
    } else {
      assert (m - 1) * (Pow2(bits) - 1) == (m - 2) * (Pow2(bits) - 1) + (Pow2(bits) - 1);
      AccumulatedIsSum(v, bits, n, m - 1);
      SumBound(v, bits, m - 1);
      Small(SumUpTo(v, m - 1), Pow2(n));
    }
  }

  lemma {:induction false} AccumulatedBelow(v: seq<int>, n: nat, m: nat)
    requires 2 <= m <= |v| && forall k :: 0 <= k < |v| ==> v[k] >= 0
    ensures 0 <= Accumulated(v, n, m) <= SumUpTo(v, m)
  {
    if m == 2 {
      assert SumUpTo(v, 2) == SumUpTo(v, 1) + v[1] && SumUpTo(v, 1) == SumUpTo(v, 0) + v[0];
    } else {
      AccumulatedBelow(v, n, m - 1);
      RemainderBelow(Accumulated(v, n, m - 1), Pow2(n));
    }
  }

  lemma RemainderBelow(x: int, w: int)
    requires x >= 0 && w > 0
    ensures 0 <= x % w <= x && (x >= w ==> x % w < x)
  {
    assert x == (x / w) * w + x % w;
  }

  lemma {:induction false} SumOfTops(v: seq<int>, t: int, m: nat)
    requires m <= |v| && forall k :: 0 <= k < |v| ==> v[k] == t
    ensures SumUpTo(v, m) == m * t
  {
    if m > 0 {
      SumOfTops(v, t, m - 1);
      assert m * t == (m - 1) * t + t;
    }
  }

  /** A carry is lost as soon as all but the last of the largest operands exceed the width. */
  lemma TopsLoseCarry(bits: nat, n: nat, m: nat)
    requires m > 2 && (m - 1) * (Pow2(bits) - 1) >= Pow2(n)
    ensures var v := seq(m, _ => Pow2(bits) - 1); Bounded(v, bits) && Accumulated(v, n, m) < SumUpTo(v, m)
  {
    var v := seq(m, _ => Pow2(bits) - 1);
    AccumulatedBelow(v, n, m - 1);
    SumOfTops(v, Pow2(bits) - 1, m - 1);
    RemainderBelow(Accumulated(v, n, m - 1), Pow2(n));
  }

  /** Adding m operands is exact for all operands exactly when m - 1 largest operands fit n bits. */
  lemma ExactIff(bits: nat, n: nat, m: nat)
    requires m > 2
    ensures (forall v: seq<int> :: |v| == m && Bounded(v, bits) ==> Accumulated(v, n, m) == SumUpTo(v, m))
       <==> (m - 1) * (Pow2(bits) - 1) < Pow2(n)
  {
    if (m - 1) * (Pow2(bits) - 1) < Pow2(n) {
      forall v: seq<int> | |v| == m && Bounded(v, bits) ensures Accumulated(v, n, m) == SumUpTo(v, m) {
        AccumulatedIsSum(v, bits, n, m);
      }
    } else {
      TopsLoseCarry(bits, n, m);
    }
  }

  /** With at most as many operands as players the width chosen by the source is enough. */
  lemma EnoughForPlayers(s: Summands, m: nat, players: nat, item: nat)
    requires 2 <= m <= players && Complete(s, m, item + 1)
    ensures Accumulated(Values(s, m, item), |s| + CeilLog2(players), m) == SumUpTo(Values(s, m, item), m)
  {
    var v, w := Values(s, m, item), Pow2(|s|);
    forall k | 0 <= k < m ensures 0 <= v[k] < w {
      OperandBits(s, m, item + 1, k, item);
      BitsValBound(Operand(s, k, item));
    }
    Pow2Add(|s|, CeilLog2(players));
    WidthSuffices(m, w, Pow2(CeilLog2(players)));
    AccumulatedIsSum(v, |s|, |s| + CeilLog2(players), m);
  }

  lemma WidthSuffices(m: int, w: int, p: int)
    requires 2 <= m <= p && w >= 1
    ensures (m - 1) * (w - 1) < w * p
  {
    assert (m - 1) * (w - 1) <= (m - 1) * w;
    assert (m - 1) * w < m * w <= p * w;
  }
}
