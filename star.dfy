/**
 * Star.js: the star record stored in a block. Its constructor takes five
 * positional arguments and keeps each one that is truthy, `''` otherwise.
 */
module StarValue {
  import opened Wrappers

  datatype Star = Star(dec: string, ra: string, mag: string, cen: string, story: string)

  /** A positional argument of a call; `None` is `undefined` (not passed, or passed as undefined). */
  type Arg = Option<string>

  /** The field a positional argument is stored in: 0 dec, 1 ra, 2 mag, 3 cen, 4 story. */
  function Field(s: Star, position: nat): string
    requires position < 5
  {
    match position
    case 0 => s.dec
    case 1 => s.ra
    case 2 => s.mag
    case 3 => s.cen
    case _ => s.story
  }

  /** JavaScript's `(x ? x : '')` for a string or undefined argument. */
  function OrEmpty(x: Arg): string
  {
    if x.Some? && x.value != "" then x.value else ""
  }

  function ArgAt(args: seq<Arg>, i: nat): Arg
  {
    if i < |args| then args[i] else None
  }

  /** `new Star(...args)`. */
  function NewStar(args: seq<Arg>): (s: Star)
    ensures forall position :: 0 <= position < 5 ==>
      Field(s, position) == (if position < |args| && args[position].Some? then args[position].value else "")
  {
    Star(OrEmpty(ArgAt(args, 0)), OrEmpty(ArgAt(args, 1)), OrEmpty(ArgAt(args, 2)),
         OrEmpty(ArgAt(args, 3)), OrEmpty(ArgAt(args, 4)))
  }

  /** Passing `undefined` and passing `''` build the same star. */
  lemma MissingLikeEmpty(args: seq<Arg>, position: nat)
    requires position < |args|
    ensures NewStar(args[position := None]) == NewStar(args[position := Some("")])
  {
    var a, b := NewStar(args[position := None]), NewStar(args[position := Some("")]);
    assert Field(a, 0) == Field(b, 0) && Field(a, 1) == Field(b, 1) && Field(a, 2) == Field(b, 2);
    assert Field(a, 3) == Field(b, 3) && Field(a, 4) == Field(b, 4);
  }

  /** Every field with no argument of its own is `''`; arguments past the fifth are ignored. */
  lemma UnsuppliedFieldsEmpty(args: seq<Arg>)
    ensures forall position :: |args| <= position < 5 ==> Field(NewStar(args), position) == ""
    ensures |args| > 5 ==> NewStar(args) == NewStar(args[..5])
  {
    if |args| > 5 {
      var a, b := NewStar(args), NewStar(args[..5]);
      assert Field(a, 0) == Field(b, 0) && Field(a, 1) == Field(b, 1) && Field(a, 2) == Field(b, 2);
      assert Field(a, 3) == Field(b, 3) && Field(a, 4) == Field(b, 4);
    }
  }
}
