/** Option values, shared by every other module. */
module Common {

  datatype Option<+T> = None | Some(value: T)

  /** Two to the power 63: SQLite integers are signed 64-bit, so a u64 from here on cannot be bound. */
  const TWO_POW_63: nat := 0x8000_0000_0000_0000

  /** Two to the power 64: the size of Rust's u64. */
  const TWO_POW_64: nat := 0x1_0000_0000_0000_0000

  lemma {:induction false} Maximum(s: set<nat>) returns (m: nat)
    requires s != {}
    ensures m in s && forall k :: k in s ==> k <= m
    decreases |s|
  {
    var x :| x in s;
    var rest := s - {x};
    m := x;
    if rest != {} {
      var r := Maximum(rest);
      m := if r < x then x else r;
    }
    assert forall k :: k in s ==> k == x || k in rest;
  }

  /** Every nonempty set of naturals has a largest element. */
  lemma MaximumExists(s: set<nat>)
    requires s != {}
    ensures exists m :: m in s && forall k :: k in s ==> k <= m
  {
    var m := Maximum(s);
  }

  lemma {:induction false} Minimum(s: set<nat>) returns (m: nat)
    requires s != {}
    ensures m in s && forall k :: k in s ==> m <= k
    decreases |s|
  {
    var x :| x in s;
    var rest := s - {x};
    m := x;
    if rest != {} {
      var r := Minimum(rest);
      m := if x < r then x else r;
    }
    assert forall k :: k in s ==> k == x || k in rest;
  }

  /** Every nonempty set of naturals has a smallest element. */
  lemma MinimumExists(s: set<nat>)
    requires s != {}
    ensures exists m :: m in s && forall k :: k in s ==> m <= k
  {
    var m := Minimum(s);
  }

  /** The pieces with the separator between them. */
  function Join(pieces: seq<string>, sep: char): string {
    if pieces == [] then ""
    else if |pieces| == 1 then pieces[0]
    else pieces[0] + [sep] + Join(pieces[1..], sep)
  }
}
