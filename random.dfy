// The package draws from Python's global `random` module. Here the draws are
// injected: a RandomSource hands out the values of a fixed stream in order, so
// every operation that "draws" is a function of the stream and the number of
// values drawn before it.
module Random {

  /** Python's random.randint(a, b) in terms of one uniform draw u in [0, 1). */
  function RandIntOf(u: real, a: int, b: int): (r: int)
    requires 0.0 <= u < 1.0 && a <= b
    ensures a <= r <= b
  {
    ScaledFloorBounds(u, b - a + 1);
    a + (u * (b - a + 1) as real).Floor
  }

  /** Python's random.uniform(a, b): a + (b - a) * u, which lies between a and b. */
  function UniformOf(u: real, a: real, b: real): (r: real)
    requires 0.0 <= u < 1.0
    ensures a <= b ==> a <= r <= b
    ensures b <= a ==> b <= r <= a
  {
    var d := b - a;
    ScaledBounds(u, d);
    var p := d * u;
    a + p
  }

  lemma ScaledFloorBounds(u: real, n: int)
    requires 0.0 <= u < 1.0 && n > 0
    ensures 0 <= (u * n as real).Floor < n
  {
    assert 0.0 <= u * n as real < n as real;
  }

  lemma ScaledBounds(u: real, d: real)
    requires 0.0 <= u < 1.0
    ensures d >= 0.0 ==> 0.0 <= d * u <= d
    ensures d <= 0.0 ==> d <= d * u <= 0.0
  {
    if d >= 0.0 {
      assert d * u <= d * 1.0;
    } else {
      assert d * u >= d * 1.0;
    }
  }

  class RandomSource {
    /** The values random.random() returns, in order. */
    const stream: nat -> real
    /** How many values have been drawn so far. */
    var drawn: nat

    /** Every value of the stream lies in [0, 1), as random.random()'s do. */
    ghost predicate Valid()
    {
      forall k: nat :: 0.0 <= stream(k) < 1.0
    }

    constructor (stream: nat -> real)
      requires forall k: nat :: 0.0 <= stream(k) < 1.0
      ensures Valid() && this.stream == stream && drawn == 0
    {
      this.stream := stream;
      drawn := 0;
    }

    /** random.random() */
    method Random() returns (r: real)
      requires Valid()
      modifies this`drawn
      ensures drawn == old(drawn) + 1
      ensures r == stream(old(drawn)) && 0.0 <= r < 1.0
    {
      r := stream(drawn);
      drawn := drawn + 1;
    }

    /** random.uniform(a, b) */
    method Uniform(a: real, b: real) returns (r: real)
      requires Valid()
      modifies this`drawn
      ensures drawn == old(drawn) + 1
      ensures r == UniformOf(stream(old(drawn)), a, b)
    {
      var u := Random();
      r := UniformOf(u, a, b);
    }

    /** random.randint(a, b); Python raises ValueError when a > b. */
    method RandInt(a: int, b: int) returns (r: int)
      requires Valid() && a <= b
      modifies this`drawn
      ensures drawn == old(drawn) + 1
      ensures r == RandIntOf(stream(old(drawn)), a, b) && a <= r <= b
    {
      var u := Random();
      r := RandIntOf(u, a, b);
    }
  }
}
