/** `get_rating_color`: the heat-map colour of a rating, a seven-step gradient over whole
    rating points plus gray for an unrated episode. */
module Colors {
  import opened Wrappers

  const Gray: string := "#3d3d3d"

  /** The gradient from red (below 4) to dark green (9 and above). */
  const Palette: seq<string> := ["#da3633", "#f85149", "#d29922", "#e3b341", "#7ee787", "#3fb950", "#238636"]

  /** The lower bounds of the second to seventh colours. */
  const Thresholds: seq<real> := [4.0, 5.0, 6.0, 7.0, 8.0, 9.0]

  /** The number of bounds in `ts` that `x` reaches. */
  function Reached(ts: seq<real>, x: real): (n: nat)
    ensures n <= |ts|
  {
    if ts == [] then 0 else (if ts[0] <= x then 1 else 0) + Reached(ts[1..], x)
  }

  /** The palette position of a rating: how many thresholds it reaches. */
  function Bucket(x: real): (b: nat)
    ensures b < |Palette|
  {
    Reached(Thresholds, x)
  }

  /** `get_rating_color`, the if/elif chain of the source. */
  function RatingColor(rating: Option<real>): (c: string)
    ensures rating.None? ==> c == Gray
    // a rating gets the palette entry of the number of thresholds it reaches
    ensures rating.Some? ==> c == Palette[Bucket(rating.value)]
  {
    if rating.None? then Gray
    else
      var r := rating.value;
      BucketSteps(r);
      if r < 4.0 then "#da3633"
      else if r < 5.0 then "#f85149"
      else if r < 6.0 then "#d29922"
      else if r < 7.0 then "#e3b341"
      else if r < 8.0 then "#7ee787"
      else if r < 9.0 then "#3fb950"
      else "#238636"
  }

  /** The bucket counts the thresholds one by one. */
  lemma BucketSteps(x: real)
    ensures Bucket(x) ==
      (if 4.0 <= x then 1 else 0) + (if 5.0 <= x then 1 else 0) + (if 6.0 <= x then 1 else 0) +
      (if 7.0 <= x then 1 else 0) + (if 8.0 <= x then 1 else 0) + (if 9.0 <= x then 1 else 0)
  {
    assert [9.0][1..] == [];
    assert Reached([9.0], x) == (if 9.0 <= x then 1 else 0);
    assert [8.0, 9.0][1..] == [9.0];
    assert Reached([8.0, 9.0], x) == (if 8.0 <= x then 1 else 0) + Reached([9.0], x);
    assert [7.0, 8.0, 9.0][1..] == [8.0, 9.0];
    assert Reached([7.0, 8.0, 9.0], x) == (if 7.0 <= x then 1 else 0) + Reached([8.0, 9.0], x);
    assert [6.0, 7.0, 8.0, 9.0][1..] == [7.0, 8.0, 9.0];
    assert Reached([6.0, 7.0, 8.0, 9.0], x) == (if 6.0 <= x then 1 else 0) + Reached([7.0, 8.0, 9.0], x);
    assert [5.0, 6.0, 7.0, 8.0, 9.0][1..] == [6.0, 7.0, 8.0, 9.0];
    assert Reached([5.0, 6.0, 7.0, 8.0, 9.0], x) == (if 5.0 <= x then 1 else 0) + Reached([6.0, 7.0, 8.0, 9.0], x);
    assert Thresholds[1..] == [5.0, 6.0, 7.0, 8.0, 9.0];
  }

  lemma {:induction false} ReachedMonotone(ts: seq<real>, x: real, y: real)
    requires x <= y
    ensures Reached(ts, x) <= Reached(ts, y)
    decreases |ts|
  {
    if ts != [] {
      ReachedMonotone(ts[1..], x, y);
    }
  }

  /** A higher rating never gets a colour further toward red. */
  lemma ColorMonotone(x: real, y: real)
    requires x <= y
    ensures Bucket(x) <= Bucket(y)
    ensures RatingColor(Some(x)) == Palette[Bucket(x)] && RatingColor(Some(y)) == Palette[Bucket(y)]
  {
    ReachedMonotone(Thresholds, x, y);
  }

  /** Different buckets get different colours, and no rating is shown gray. */
  lemma ColorsDistinct(x: real, y: real)
    ensures RatingColor(Some(x)) == RatingColor(Some(y)) <==> Bucket(x) == Bucket(y)
    ensures RatingColor(Some(x)) != Gray
  {
    assert forall i, j :: 0 <= i < j < |Palette| ==> Palette[i] != Palette[j] by {
      assert Palette[0][1] == 'd' && Palette[1][1] == 'f' && Palette[2][1] == 'd' && Palette[3][1] == 'e';
      assert Palette[4][1] == '7' && Palette[5][1] == '3' && Palette[6][1] == '2';
      assert Palette[0][2] != Palette[2][2];
    }
    assert forall i :: 0 <= i < |Palette| ==> Palette[i] != Gray by {
      assert Gray[1] == '3' && Gray[2] == 'd';
      assert Palette[5][2] == 'f';
    }
  }

  /** The boundaries are inclusive below: a rating of exactly 4 is light red. */
  lemma FourIsLightRed()
    ensures RatingColor(Some(4.0)) == "#f85149"
    ensures RatingColor(Some(3.9)) == "#da3633"
    ensures RatingColor(Some(9.0)) == "#238636"
  {
  }
}
