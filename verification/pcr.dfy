/** `compute_melting_temperature`: the Wallace rule for the melting
    temperature of a short DNA strand from its nucleotide counts. */
module Pcr {
  import opened Python

  const NumberTypeMessage := "Only support int or float values"
  const ArityMessage := "Require 4 arguments"

  /** The type-check loop: every argument is a number. */
  function AllNumbers(args: seq<Value>): (r: bool)
    ensures r <==> forall k :: 0 <= k < |args| ==> args[k].Int?
  {
    if |args| == 0 then true
    else if !args[0].Int? then false
    else
      assert forall k :: 0 < k < |args| ==> args[k] == args[1..][k - 1];
      AllNumbers(args[1..])
  }

  /** `compute_melting_temperature(*args)`: the type check over all
      arguments comes first, then the arity check, then the formula. */
  function MeltingTemperature(args: seq<Value>): (r: Result<int>)
    ensures (exists k :: 0 <= k < |args| && !args[k].Int?) ==> r == Raise(TypeError(NumberTypeMessage))
    ensures (forall k :: 0 <= k < |args| ==> args[k].Int?) && |args| != 4 ==> r == Raise(ValueError(ArityMessage))
    ensures r.Ok? <==> |args| == 4 && forall k :: 0 <= k < |args| ==> args[k].Int?
    ensures r.Ok? ==> r.value == 2 * (args[0].i + args[1].i) + 4 * (args[2].i + args[3].i)
    ensures r.Ok? && (forall k :: 0 <= k < |args| ==> args[k].i >= 0) ==> r.value >= 0 && r.value % 2 == 0
  {
    if !AllNumbers(args) then Raise(TypeError(NumberTypeMessage))
    else if |args| != 4 then Raise(ValueError(ArityMessage))
    else
      var (a, t, g, c) := (args[0].i, args[1].i, args[2].i, args[3].i);
      Ok(2 * (a + t) + 4 * (g + c))
  }

  /** Raising any count never lowers the temperature. */
  lemma MeltingTemperatureMonotone(a: int, t: int, g: int, c: int, a': int, t': int, g': int, c': int)
    requires a <= a' && t <= t' && g <= g' && c <= c'
    ensures MeltingTemperature([Int(a), Int(t), Int(g), Int(c)]).value
         <= MeltingTemperature([Int(a'), Int(t'), Int(g'), Int(c')]).value
  {
    var before, after := [Int(a), Int(t), Int(g), Int(c)], [Int(a'), Int(t'), Int(g'), Int(c')];
    assert forall k :: 0 <= k < 4 ==> before[k].Int? && after[k].Int?;
  }

  /** Number of occurrences of `n` in `s`. */
  ghost function Count(s: string, n: char): nat {
    if |s| == 0 then 0 else (if s[0] == n then 1 else 0) + Count(s[1..], n)
  }

  /** Contribution of one nucleotide to the melting temperature. */
  ghost function Weight(n: char): int {
    if n == 'A' || n == 'T' then 2
    else if n == 'G' || n == 'C' then 4
    else 0
  }

  /** Melting temperature of a strand, nucleotide by nucleotide. */
  ghost function StrandTemperature(s: string): int {
    if |s| == 0 then 0 else Weight(s[0]) + StrandTemperature(s[1..])
  }

  /** The Wallace rule over a strand's counts adds up the weights of its
      nucleotides. */
  lemma {:induction false} WallaceOfCounts(s: string)
    ensures 2 * (Count(s, 'A') + Count(s, 'T')) + 4 * (Count(s, 'G') + Count(s, 'C')) == StrandTemperature(s)
  {
    if |s| > 0 {
      WallaceOfCounts(s[1..]);
    }
  }

  /** Called with the nucleotide counts of a strand, the function returns
      the sum of the per-nucleotide weights of the strand. */
  lemma MeltingTemperatureOfStrand(s: string)
    ensures MeltingTemperature([Int(Count(s, 'A')), Int(Count(s, 'T')), Int(Count(s, 'G')), Int(Count(s, 'C'))])
         == Ok(StrandTemperature(s))
  {
    WallaceOfCounts(s);
    var args := [Int(Count(s, 'A')), Int(Count(s, 'T')), Int(Count(s, 'G')), Int(Count(s, 'C'))];
    assert forall k :: 0 <= k < |args| ==> args[k].Int?;
  }
}
