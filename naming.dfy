/**
 * Names of outlined functions: the requested name (`_func`, or `_func_`
 * followed by the decimal hash of the op) and the fresh name the symbol
 * table settles on when the requested one is taken.
 */
module Naming {

  /** The range of `size_t` on a 64-bit host: what the op hash is cast to. */
  type Hash = h: nat | h < 0x1_0000_0000_0000_0000

  const ReusableName: string := "_func"
  const UniquePrefix: string := "_func_"

  function Digit(d: nat): (c: char)
    requires d < 10
  {
    ('0' as int + d) as char
  }

  /** The number a string of decimal digits denotes, most significant
      digit first. */
  function DigitsValue(s: string): nat
    requires forall i :: 0 <= i < |s| ==> '0' <= s[i] <= '9'
  {
    if s == [] then 0 else 10 * DigitsValue(s[..|s| - 1]) + (s[|s| - 1] as int - '0' as int)
  }

  /** `absl::StrCat` of an unsigned integer: its decimal digits, most
      significant first, no leading zeros. */
  function Decimal(n: nat): (s: string)
    ensures |s| >= 1
    ensures forall i :: 0 <= i < |s| ==> '0' <= s[i] <= '9'
    ensures DigitsValue(s) == n
    ensures (s[0] == '0') == (n == 0)
    ensures (|s| == 1) == (n < 10)
  {
    if n < 10 then [Digit(n)]
    else
      var high := Decimal(n / 10);
      assert (high + [Digit(n % 10)])[..|high|] == high;
      high + [Digit(n % 10)]
  }

  /** Different numbers print differently. */
  lemma {:induction false} DecimalInjective(a: nat, b: nat)
    requires Decimal(a) == Decimal(b)
    ensures a == b
  {
    if 10 <= a {
      var sa, sb := Decimal(a), Decimal(b);
      assert sa[..|sa| - 1] == Decimal(a / 10);
      assert sb[..|sb| - 1] == Decimal(b / 10);
      DecimalInjective(a / 10, b / 10);
      assert Digit(a % 10) == sa[|sa| - 1] == Digit(b % 10);
    }
  }

  /** The name asked of the symbol table for a new function. */
  function RequestedName(globallyUnique: bool, hash: Hash): string
  {
    if globallyUnique then UniquePrefix + Decimal(hash) else ReusableName
  }

  /** With unique names, two ops get the same requested name exactly when
      their hashes agree; the unique names never clash with `_func`; without
      unique names every op asks for `_func`. */
  lemma RequestedNameSpec(h1: Hash, h2: Hash)
    ensures RequestedName(true, h1) == RequestedName(true, h2) <==> h1 == h2
    ensures RequestedName(true, h1) != RequestedName(false, h2)
    ensures RequestedName(false, h1) == RequestedName(false, h2) == "_func"
  {
    var n1, n2 := RequestedName(true, h1), RequestedName(true, h2);
    if n1 == n2 {
      assert Decimal(h1) == n1[|UniquePrefix|..];
      assert Decimal(h2) == n2[|UniquePrefix|..];
      DecimalInjective(h1, h2);
    }
    assert |n1| > |ReusableName|;
  }

  /** An upper bound on the lengths of `names`. */
  function MaxLength(names: seq<string>): (m: nat)
    ensures forall i :: 0 <= i < |names| ==> |names[i]| <= m
  {
    if names == [] then 0
    else
      var rest := MaxLength(names[1..]);
      if |names[0]| > rest then |names[0]| else rest
  }

  function Underscores(n: nat): (s: string)
    ensures |s| == n
  {
    if n == 0 then "" else Underscores(n - 1) + "_"
  }

  /** The name the symbol table gives a new symbol that asks for `name`:
      `name` itself when free, otherwise `name` with a suffix that makes it
      longer than every name taken. */
  function Uniquify(name: string, taken: seq<string>): (r: string)
    ensures r !in taken
    ensures name !in taken ==> r == name
    ensures name <= r
  {
    if name !in taken then name else name + Underscores(MaxLength(taken) + 1)
  }
}
