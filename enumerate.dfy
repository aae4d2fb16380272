/** The truth-table enumerator: for n variables in alphabetical order, row i (0 <= i < 2^n)
    gives the variable at position vi the value of bit n-1-vi of i, and records the value
    of the formula under that assignment. */
module TruthTable {
  import opened Syntax
  import opened Registry

  function Pow2(n: nat): (p: nat)
    ensures p >= 1
  {
    if n == 0 then 1 else 2 * Pow2(n - 1)
  }

  /** Bit k of i, counting from the least significant: the test `i & 2^k == 2^k`. */
  function Bit(i: nat, k: nat): bool {
    (i / Pow2(k)) % 2 == 1
  }

  /** The n low bits of i, most significant first. */
  function Bits(i: nat, n: nat): (v: seq<bool>)
    ensures |v| == n
  {
    if n == 0 then [] else Bits(i / 2, n - 1) + [i % 2 == 1]
  }

  /** The number whose binary digits, most significant first, are `v`. */
  function FromBits(v: seq<bool>): (i: nat)
    ensures i < Pow2(|v|)
  {
    if v == [] then 0 else 2 * FromBits(v[..|v| - 1]) + (if v[|v| - 1] then 1 else 0)
  }

  /** Lexicographic order on equally long rows, with false before true. */
  predicate LexLess(a: seq<bool>, b: seq<bool>)
    requires |a| == |b|
  {
    |a| > 0 &&
    (LexLess(a[..|a| - 1], b[..|b| - 1]) ||
     (a[..|a| - 1] == b[..|b| - 1] && !a[|a| - 1] && b[|b| - 1]))
  }

  /** The assignment giving `names[vi]` the value `values[vi]`. */
  function AssignmentOf(names: seq<char>, values: seq<bool>): (a: Assignment)
    requires |names| == |values|
    ensures a.Keys == set c | c in names
  {
    if names == [] then map[]
    else AssignmentOf(names[..|names| - 1], values[..|values| - 1])[names[|names| - 1] := values[|values| - 1]]
  }

  /** One line of the table: the variables' values and the formula's value under them. */
  datatype Row = Row(values: seq<bool>, result: bool)

  /** Row `k` of the table of `e` over `names`. */
  function RowAt(e: Expr, names: seq<char>, k: nat): (row: Row)
    requires forall c :: c in Vars(e) ==> c in names
    ensures |row.values| == |names|
  {
    var v := Bits(k, |names|);
    Row(v, Eval(e, AssignmentOf(names, v)))
  }

  /** Enumerates the 2^n rows in order. */
  method Enumerate(e: Expr, names: seq<char>) returns (rows: seq<Row>)
    requires StrictlySorted(names)
    requires forall c :: c in Vars(e) ==> c in names
    ensures |rows| == Pow2(|names|)
    ensures forall k :: 0 <= k < |rows| ==> rows[k] == RowAt(e, names, k)
  {
    var count := Pow2(|names|);
    rows := [];
    var i := 0;
    while i < count
      invariant 0 <= i <= count
      invariant |rows| == i
      invariant forall k :: 0 <= k < i ==> rows[k] == RowAt(e, names, k)
    {
      var row := ComputeRow(e, names, i);
      rows := rows + [row];
      i := i + 1;
    }
  }

  /** Row i: the assignment derived bit by bit from i, most significant bit first, and the
      formula's value under it. */
  method ComputeRow(e: Expr, names: seq<char>, i: nat) returns (row: Row)
    requires StrictlySorted(names)
    requires forall c :: c in Vars(e) ==> c in names
    ensures row == RowAt(e, names, i)
  {
    var n := |names|;
    var values: seq<bool> := [];
    var asg: Assignment := map[];
    var vi := 0;
    while vi < n
      invariant 0 <= vi <= n
      invariant values == Bits(i, n)[..vi]
      invariant asg == AssignmentOf(names[..vi], values)
    {
      var bit := Pow2(n - vi - 1);
      var isTrue := (i / bit) % 2 == 1;
      BitsAt(i, n, vi);
      assert names[..vi + 1][..vi] == names[..vi];
      assert (values + [isTrue])[..vi] == values;
      values := values + [isTrue];
      asg := asg[names[vi] := isTrue];
      vi := vi + 1;
    }
    assert names[..n] == names;
    assert values == Bits(i, n);
    var result := Eval(e, asg);
    row := Row(values, result);
  }

  // ----- Arithmetic -----

  lemma MulSign(d: int, x: int)
    requires d > 0
    ensures x >= 1 ==> d * x >= d
    ensures x <= -1 ==> d * x <= -d
  {
  }

  lemma DivUnique(a: int, d: int, q: int, m: int)
    requires d > 0 && 0 <= m < d && a == d * q + m
    ensures a / d == q
  {
    var q', m' := a / d, a % d;
    assert d * (q' - q) == m - m';
    MulSign(d, q' - q);
  }

  lemma MulDistributes(b: int, x: int, y: int)
    ensures b * (x + y) == b * x + b * y
  {
  }

  lemma MulAssociates(a: int, b: int, c: int)
    ensures a * (b * c) == (a * b) * c
  {
  }

  lemma MulMonotone(b: nat, x: int, y: int)
    requires x <= y
    ensures b * x <= b * y
  {
    MulDistributes(b, x, y - x);
  }

  lemma DivDiv(a: nat, b: nat, c: nat)
    requires b > 0 && c > 0
    ensures (a / b) / c == a / (b * c)
  {
    var q, m := a / b, a % b;
    var q2, m2 := q / c, q % c;
    assert a == b * q + m;
    assert q == c * q2 + m2;
    MulDistributes(b, c * q2, m2);
    MulAssociates(b, c, q2);
    assert b * q == (b * c) * q2 + b * m2;
    MulMonotone(b, m2, c - 1);
    MulDistributes(b, c, -1);
    assert b * m2 + m < b * c;
    DivUnique(a, b * c, q2, b * m2 + m);
  }

  // ----- Properties of the rows -----

  /** The value computed for position vi of row i is bit n-1-vi of i. */
  lemma {:induction false} BitsAt(i: nat, n: nat, vi: nat)
    requires vi < n
    ensures Bits(i, n)[vi] == Bit(i, n - 1 - vi)
  {
    if vi < n - 1 {
      BitsAt(i / 2, n - 1, vi);
      DivDiv(i, 2, Pow2(n - 2 - vi));
    }
  }

  /** Reading the bits of i back gives i. */
  lemma {:induction false} FromBitsOfBits(i: nat, n: nat)
    requires i < Pow2(n)
    ensures FromBits(Bits(i, n)) == i
  {
    if n > 0 {
      var v := Bits(i, n);
      assert v[..n - 1] == Bits(i / 2, n - 1);
      FromBitsOfBits(i / 2, n - 1);
    }
  }

  /** The bits of the number a row stands for are the row itself. */
  lemma {:induction false} BitsOfFromBits(v: seq<bool>)
    ensures Bits(FromBits(v), |v|) == v
  {
    if v != [] {
      var n := |v|;
      var f := FromBits(v[..n - 1]);
      var i := FromBits(v);
      assert i == 2 * f + (if v[n - 1] then 1 else 0);
      assert i / 2 == f && i % 2 == (if v[n - 1] then 1 else 0);
      BitsOfFromBits(v[..n - 1]);
      assert v == v[..n - 1] + [v[n - 1]];
    }
  }

  /** Every assignment of n values occurs as some row below 2^n. */
  lemma EveryAssignmentOccurs(v: seq<bool>)
    ensures exists k :: 0 <= k < Pow2(|v|) && Bits(k, |v|) == v
  {
    BitsOfFromBits(v);
  }

  /** No two rows below 2^n have the same assignment. */
  lemma RowsDistinct(n: nat, j: nat, k: nat)
    requires j < Pow2(n) && k < Pow2(n) && j != k
    ensures Bits(j, n) != Bits(k, n)
  {
    FromBitsOfBits(j, n);
    FromBitsOfBits(k, n);
  }

  /** Rows come in lexicographic order of their assignments. */
  lemma {:induction false} RowsInLexOrder(n: nat, j: nat, k: nat)
    requires j < k < Pow2(n)
    ensures LexLess(Bits(j, n), Bits(k, n))
  {
    assert n > 0;
    var a, b := Bits(j, n), Bits(k, n);
    assert a == Bits(j / 2, n - 1) + [j % 2 == 1];
    assert b == Bits(k / 2, n - 1) + [k % 2 == 1];
    assert a[..n - 1] == Bits(j / 2, n - 1);
    assert b[..n - 1] == Bits(k / 2, n - 1);
    if j / 2 < k / 2 {
      assert k / 2 < Pow2(n - 1);
      RowsInLexOrder(n - 1, j / 2, k / 2);
    } else {
      assert j / 2 == k / 2 && j % 2 == 0 && k % 2 == 1;
      assert !a[n - 1] && b[n - 1];
    }
  }

  /** The first row is all false. */
  lemma {:induction false} FirstRowAllFalse(n: nat)
    ensures Bits(0, n) == seq(n, _ => false)
  {
    if n > 0 {
      FirstRowAllFalse(n - 1);
    }
  }

  /** The last row is all true. */
  lemma {:induction false} LastRowAllTrue(n: nat)
    ensures Bits(Pow2(n) - 1, n) == seq(n, _ => true)
  {
    if n > 0 {
      assert (Pow2(n) - 1) / 2 == Pow2(n - 1) - 1;
      LastRowAllTrue(n - 1);
    }
  }

  /** The assignment built from a row gives each name the value at its position. */
  lemma {:induction false} AssignmentAt(names: seq<char>, values: seq<bool>, vi: nat)
    requires |names| == |values| && StrictlySorted(names) && vi < |names|
    ensures AssignmentOf(names, values)[names[vi]] == values[vi]
  {
    var n := |names|;
    if vi < n - 1 {
      assert names[vi] != names[n - 1];
      AssignmentAt(names[..n - 1], values[..n - 1], vi);
    }
  }

  /** In row k of the table over `names`, the variable at position vi has the value of bit
      n-1-vi of k. */
  lemma RowAssignment(names: seq<char>, k: nat, vi: nat)
    requires StrictlySorted(names) && vi < |names|
    ensures AssignmentOf(names, Bits(k, |names|))[names[vi]] == Bit(k, |names| - 1 - vi)
  {
    var n := |names|;
    var v := Bits(k, n);
    assert v[vi] == Bit(k, n - 1 - vi) by {
      BitsAt(k, n, vi);
    }
    assert AssignmentOf(names, v)[names[vi]] == v[vi] by {
      AssignmentAt(names, v, vi);
    }
  }
}
