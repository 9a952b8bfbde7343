/** `valid` from the sequence utilities: does a string use only the symbols
    of a given alphabet of one-character bases? */
module Sequence {
  import opened Python

  const SequenceTypeMessage := "Sequence must be str"
  const BasesTypeMessage := "Bases must be list or tuple"
  const BaseTypeMessage := "Bases must contain strings"
  const BaseLengthMessage := "Bases must have length of 1"

  /** The default `bases` argument: the DNA alphabet as a tuple. */
  const DefaultBases: Value := Tuple([Str("A"), Str("T"), Str("G"), Str("C")])

  /** A well-formed base: a string of exactly one character. */
  predicate IsBase(v: Value) {
    v.Str? && |v.s| == 1
  }

  /** The exception a malformed base raises: a non-string is a type error,
      a string of the wrong length a value error. */
  function BaseError(v: Value): Exception
    requires !IsBase(v)
  {
    if !v.Str? then TypeError(BaseTypeMessage) else ValueError(BaseLengthMessage)
  }

  /** The symbols a list of bases admits. */
  ghost function Alphabet(bases: seq<Value>): set<char> {
    set v | v in bases && IsBase(v) :: v.s[0]
  }

  /** The loop over `bases`: each base in order is checked for being a
      string, then for having length 1; the first failure is raised. */
  function CheckBases(bases: seq<Value>): (r: Result<()>)
    ensures r.Ok? <==> forall k :: 0 <= k < |bases| ==> IsBase(bases[k])
    ensures r.Raise? ==> exists k :: 0 <= k < |bases| && !IsBase(bases[k]) && r.exc == BaseError(bases[k])
                                    && forall p :: 0 <= p < k ==> IsBase(bases[p])
  {
    if |bases| == 0 then Ok(())
    else if !IsBase(bases[0]) then Raise(BaseError(bases[0]))
    else
      var r := CheckBases(bases[1..]);
      assert forall k :: 0 <= k < |bases| - 1 ==> bases[1..][k] == bases[k + 1];
      r
  }

  /** The loop over `sequence`: False at the first symbol that is not one of
      the bases, True when there is none. */
  function Scan(sequence: string, bases: seq<Value>): (r: bool)
    ensures r <==> forall k :: 0 <= k < |sequence| ==> Str([sequence[k]]) in bases
  {
    if |sequence| == 0 then true
    else if Str([sequence[0]]) !in bases then false
    else
      assert forall k :: 0 < k < |sequence| ==> sequence[k] == sequence[1..][k - 1];
      Scan(sequence[1..], bases)
  }

  /** For well-formed bases, membership of a one-symbol string among them is
      membership of the symbol in their alphabet. */
  lemma MemberOfAlphabet(bases: seq<Value>, c: char)
    ensures Str([c]) in bases <==> c in Alphabet(bases)
  {
    if c in Alphabet(bases) {
      var v :| v in bases && IsBase(v) && v.s[0] == c;
      assert v.s == [c];
    }
  }

  /** `valid(sequence, bases)`. */
  function Valid(sequence: Value, bases: Value): (r: Result<bool>)
    ensures !sequence.Str? ==> r == Raise(TypeError(SequenceTypeMessage))
    ensures sequence.Str? && !bases.IsListOrTuple() ==> r == Raise(TypeError(BasesTypeMessage))
    ensures r.Ok? <==> && sequence.Str? && bases.IsListOrTuple()
                       && forall k :: 0 <= k < |bases.items| ==> IsBase(bases.items[k])
    ensures sequence.Str? && bases.IsListOrTuple() && r.Raise? ==>
              exists k :: 0 <= k < |bases.items| && !IsBase(bases.items[k]) && r.exc == BaseError(bases.items[k])
                          && forall p :: 0 <= p < k ==> IsBase(bases.items[p])
    ensures r.Ok? ==> (r.value <==> forall k :: 0 <= k < |sequence.s| ==> sequence.s[k] in Alphabet(bases.items))
  {
    if !sequence.Str? then Raise(TypeError(SequenceTypeMessage))
    else if !bases.IsListOrTuple() then Raise(TypeError(BasesTypeMessage))
    else
      var checked := CheckBases(bases.items);
      if checked.Raise? then Raise(checked.exc)
      else
        assert forall c :: Str([c]) in bases.items <==> c in Alphabet(bases.items) by {
          forall c ensures Str([c]) in bases.items <==> c in Alphabet(bases.items) {
            MemberOfAlphabet(bases.items, c);
          }
        }
        Ok(Scan(sequence.s, bases.items))
  }

  /** The default alphabet is exactly A, T, G and C. */
  lemma DefaultAlphabet()
    ensures DefaultBases.IsListOrTuple()
    ensures forall k :: 0 <= k < |DefaultBases.items| ==> IsBase(DefaultBases.items[k])
    ensures Alphabet(DefaultBases.items) == {'A', 'T', 'G', 'C'}
  {
    var items := DefaultBases.items;
    assert items[0] in items && items[1] in items && items[2] in items && items[3] in items;
  }

  /** `valid(sequence)` with the default bases: only the argument's type can
      make it raise, and it accepts exactly the strings over A, T, G, C. */
  function ValidDefault(sequence: Value): (r: Result<bool>)
    ensures r.Ok? <==> sequence.Str?
    ensures !sequence.Str? ==> r == Raise(TypeError(SequenceTypeMessage))
    ensures r.Ok? ==> (r.value <==> forall k :: 0 <= k < |sequence.s| ==> sequence.s[k] in {'A', 'T', 'G', 'C'})
  {
    DefaultAlphabet();
    Valid(sequence, DefaultBases)
  }

  /** The empty string is valid for any well-formed bases. */
  lemma ValidEmpty(bases: Value)
    requires bases.IsListOrTuple() && forall k :: 0 <= k < |bases.items| ==> IsBase(bases.items[k])
    ensures Valid(Str(""), bases) == Ok(true)
  {
  }

  /** The bases are checked before the sequence is looked at: whether and
      what `valid` raises does not depend on the string. */
  lemma ChecksPrecedeScan(s: string, t: string, bases: Value)
    ensures Valid(Str(s), bases).Raise? <==> Valid(Str(t), bases).Raise?
    ensures Valid(Str(s), bases).Raise? ==> Valid(Str(s), bases) == Valid(Str(t), bases)
  {
  }

  /** A concatenation is valid exactly when both parts are. */
  lemma ValidConcat(s: string, t: string, bases: Value)
    requires bases.IsListOrTuple() && forall k :: 0 <= k < |bases.items| ==> IsBase(bases.items[k])
    ensures Valid(Str(s + t), bases).Ok?
    ensures Valid(Str(s + t), bases).value <==> Valid(Str(s), bases).value && Valid(Str(t), bases).value
  {
    var u := s + t;
    assert forall k :: 0 <= k < |s| ==> u[k] == s[k];
    assert forall k :: 0 <= k < |t| ==> u[|s| + k] == t[k];
  }
}
