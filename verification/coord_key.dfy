/**
 * The coordinate key of the schedule cache: `lat.toFixed(8)` and
 * `lng.toFixed(8)`, compared as numbers by the database.
 *
 * A coordinate is the exact real value of the double; its key is the integer
 * number of 10^-8 degrees that `toFixed(8)` prints.
 */
module CoordKey {

  /** 10^8: `toFixed(8)` keeps eight decimal places. */
  const Scale: int := 100_000_000

  /** The composite primary key `(latitude, longitude)`, in units of 10^-8 degrees. */
  datatype CoordPair = CoordPair(latitude: int, longitude: int)

  /** The integer nearest to `y`, the larger one on a tie. */
  function RoundHalfUp(y: real): (n: int)
    requires y >= 0.0
    ensures n >= 0
    ensures y - 0.5 < n as real <= y + 0.5
  {
    (y + 0.5).Floor
  }

  /**
   * `x.toFixed(8)` read back in units of 10^-8: the sign is set aside, the
   * magnitude rounded to the nearest unit (halves away from zero), the sign put back.
   */
  function ToFixed8(x: real): (n: int)
    ensures -0.5 <= n as real - x * Scale as real <= 0.5
    ensures x >= 0.0 ==> n >= 0
    ensures x <= 0.0 ==> n <= 0
  {
    if x >= 0.0 then RoundHalfUp(x * Scale as real) else -RoundHalfUp(-x * Scale as real)
  }

  /** The key used by both the read and the write of `catabagulho_cache`. */
  function CoordCacheKey(lat: real, lng: real): (key: CoordPair)
    ensures -0.5 <= key.latitude as real - lat * Scale as real <= 0.5
    ensures -0.5 <= key.longitude as real - lng * Scale as real <= 0.5
  {
    CoordPair(ToFixed8(lat), ToFixed8(lng))
  }

  // ---------------------------------------------------------------------------
  // Lemmas
  // ---------------------------------------------------------------------------

  /** A coordinate already on the 10^-8 grid keeps its value. */
  lemma OnGridUnchanged(n: int)
    ensures ToFixed8(n as real / Scale as real) == n
  {
    var x := n as real / Scale as real;
    assert x * Scale as real == n as real;
  }

  /**
   * Jitter absorption: every coordinate strictly within half a unit of a grid
   * point gets that grid point as its key.
   */
  lemma NearbyShareKey(x: real, n: int)
    requires n as real - 0.5 < x * Scale as real < n as real + 0.5
    ensures ToFixed8(x) == n
  {
  }

  /** Rounding keeps the order of coordinates. */
  lemma ToFixed8Monotone(x: real, y: real)
    requires x <= y
    ensures ToFixed8(x) <= ToFixed8(y)
  {
    if 0.0 <= x {
      assert (x * Scale as real + 0.5).Floor <= (y * Scale as real + 0.5).Floor;
    } else if y < 0.0 {
      assert (-y * Scale as real + 0.5).Floor <= (-x * Scale as real + 0.5).Floor;
    }
  }

  /** `toFixed` handles the sign separately, so rounding is symmetric about zero. */
  lemma ToFixed8Odd(x: real)
    ensures ToFixed8(-x) == -ToFixed8(x)
  {
  }

  /** A tie is rounded away from zero, on both sides. */
  lemma HalvesAwayFromZero(n: nat)
    ensures ToFixed8((n as real + 0.5) / Scale as real) == n + 1
    ensures ToFixed8(-(n as real + 0.5) / Scale as real) == -(n + 1)
  {
    var x := (n as real + 0.5) / Scale as real;
    assert x * Scale as real == n as real + 0.5;
    assert -x * Scale as real == -(n as real + 0.5);
    assert -(n as real + 0.5) / Scale as real == -x;
  }
}
