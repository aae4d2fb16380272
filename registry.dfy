/** The variable registry: one handle per variable name, created the first time the parser
    meets the name, and listed in alphabetical order for the truth table. */
module Registry {
  import opened Syntax

  /** Strictly increasing, hence free of duplicates. */
  predicate StrictlySorted(names: seq<char>) {
    forall i, j :: 0 <= i < j < |names| ==> names[i] < names[j]
  }

  /** The names in `keys` from the `k`-th letter of the alphabet on, in alphabetical order. */
  function SortedFrom(keys: set<char>, k: nat): (names: seq<char>)
    requires k <= 26
    ensures StrictlySorted(names)
    ensures forall c :: c in names <==> c in keys && IsLower(c) && 'a' as int + k <= c as int
    decreases 26 - k
  {
    if k == 26 then []
    else
      var c := ('a' as int + k) as char;
      var rest := SortedFrom(keys, k + 1);
      var head := if c in keys then [c] else [];
      assert StrictlySorted(head + rest) by {
        forall i, j | 0 <= i < j < |head + rest|
          ensures (head + rest)[i] < (head + rest)[j]
        {
          assert (head + rest)[j] == rest[j - |head|] && rest[j - |head|] in rest;
          if i >= |head| {
            assert (head + rest)[i] == rest[i - |head|];
          }
        }
      }
      head + rest
  }

  /** A set of variable names listed in alphabetical order. */
  function SortedNames(keys: set<char>): (names: seq<char>)
    requires forall c :: c in keys ==> IsLower(c)
    ensures StrictlySorted(names)
    ensures forall c :: c in names <==> c in keys
  {
    SortedFrom(keys, 0)
  }

  class VarRegistry {
    /** The handle of each name seen so far. */
    var handles: map<char, Expr>

    ghost predicate Valid()
      reads this
    {
      forall c :: c in handles ==> IsLower(c) && handles[c] == Var(c)
    }

    constructor ()
      ensures Valid() && handles == map[]
    {
      handles := map[];
    }

    /** The handle of `c`, created and stored when `c` is new. Interning a name that is
        already present returns the stored handle and leaves the registry unchanged. */
    method Intern(c: char) returns (h: Expr)
      requires Valid() && IsLower(c)
      modifies this
      ensures Valid()
      ensures h == Var(c)
      ensures handles == old(handles)[c := h]
      ensures c in old(handles) ==> handles == old(handles) && h == old(handles)[c]
    {
      if c !in handles {
        handles := handles[c := Var(c)];
      }
      h := handles[c];
    }

    /** The registered names in alphabetical order. */
    function Names(): (names: seq<char>)
      requires Valid()
      reads this
      ensures StrictlySorted(names)
      ensures forall c :: c in names <==> c in handles
    {
      SortedNames(handles.Keys)
    }
  }
}
