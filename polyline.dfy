/** Tokens: a header, then the coordinates as zig-zag deltas from the previous point, starting
    from the origin. Coordinates are the integers the caller's degrees become once scaled by
    10^precision and rounded. */
module FlexPolyline {
  import opened Errors
  import opened Alphabet
  import opened VarintCodec
  import opened ZigZag
  import opened Header

  /** A latitude/longitude pair, scaled by 10^precision and rounded. */
  datatype Point = Point(lat: int, lng: int)

  /** What `_decode` recovers from a token: the precision its coordinates are scaled by, and
      its points in order. */
  datatype Decoded = Decoded(precision: nat, points: seq<Point>)

  /** The token `_encode` writes for one point: the header, then each coordinate measured
      from the origin. */
  function PointToken(precision: nat, p: Point): string {
    HeaderChars(precision) + Varint(ToUnsigned(p.lat - 0)) + Varint(ToUnsigned(p.lng - 0))
  }

  /** `_encode`: one point, at a precision the header accepts. */
  method EncodePoint(p: Point, precision: int) returns (r: Result<string>)
    ensures r.Ok? <==> 0 <= precision <= 15
    ensures r.Err? ==> r.error == PrecisionOutOfRange
    ensures r.Ok? ==> r.value == PointToken(precision, p)
  {
    var lastLat, lastLng := 0, 0;
    var res :- EncodeHeader(precision, []);
    assert res == HeaderChars(precision);
    var lat := p.lat;
    res := EncodeScaledValue(lat - lastLat, res);
    assert res == HeaderChars(precision) + Varint(ToUnsigned(p.lat - 0));
    lastLat := lat;
    var lng := p.lng;
    res := EncodeScaledValue(lng - lastLng, res);
    lastLng := lng;
    return Ok(res);
  }

  /** The sum of the first k signed deltas at positions parity, parity + 2, ... of values. */
  function DeltaSum(values: seq<nat>, parity: nat, k: nat): int
    requires parity < 2 && 2 * k <= |values|
  {
    if k == 0 then 0 else DeltaSum(values, parity, k - 1) + ToSigned(values[2 * (k - 1) + parity])
  }

  /** The points the values after the header describe: point k is the running sum of the
      first k + 1 latitude deltas and of the first k + 1 longitude deltas. */
  function Track(values: seq<nat>): seq<Point> {
    TrackPrefix(values, |values| / 2)
  }

  /** The first m points described by values: each one the previous (the origin at first)
      moved by the next pair of signed deltas. */
  function TrackPrefix(values: seq<nat>, m: nat): (pts: seq<Point>)
    requires 2 * m <= |values|
    ensures |pts| == m
  {
    if m == 0 then []
    else TrackPrefix(values, m - 1) + [Point(DeltaSum(values, 0, m), DeltaSum(values, 1, m))]
  }

  /** Point k of the track is the running sum of the first k + 1 latitude deltas and of the
      first k + 1 longitude deltas. */
  lemma {:induction false} TrackPoint(values: seq<nat>, m: nat, k: nat)
    requires 2 * m <= |values| && k < m
    ensures TrackPrefix(values, m)[k] == Point(DeltaSum(values, 0, k + 1), DeltaSum(values, 1, k + 1))
    decreases m
  {
    if k < m - 1 {
      TrackPoint(values, m - 1, k);
    }
  }

  /** What `_decode` computes: the values, then the header, then the points. */
  function DecodeToken(encoded: string): Result<Decoded> {
    var values :- DecodeValues(encoded);
    var precision :- DecodeHeader(values);
    Ok(Decoded(precision, Track(values[2..])))
  }

  /** `_decode`: decode the values, check the header, then walk the rest. */
  method Decode(encoded: string) returns (r: Result<Decoded>)
    ensures r == DecodeToken(encoded)
  {
    var values :- DecodeUnsignedValues(encoded, []);
    var precision :- DecodeHeader(values);
    values := values[2..];
    var coordinates := WalkDeltas(values);
    return Ok(Decoded(precision, coordinates));
  }

  /** The loop of `_decode`: add a latitude and a longitude delta at every even position that
      has a partner; the last value of an odd count is left over. */
  method WalkDeltas(values: seq<nat>) returns (coordinates: seq<Point>)
    ensures coordinates == Track(values)
  {
    var lastLat, lastLng := 0, 0;
    coordinates := [];
    var n := |values|;
    for i := 0 to n
      invariant n > 0 ==> i < n
      invariant 2 * |coordinates| - 1 <= i <= 2 * |coordinates| && 2 * |coordinates| <= n
      invariant coordinates == TrackPrefix(values, |coordinates|)
      invariant lastLat == DeltaSum(values, 0, |coordinates|)
      invariant lastLng == DeltaSum(values, 1, |coordinates|)
    {
      if i == n - 1 {
        break;
      }
      if i % 2 == 0 {
        assert i == 2 * |coordinates|;
        lastLat := lastLat + ToSigned(values[i]);
        lastLng := lastLng + ToSigned(values[i + 1]);
        coordinates := coordinates + [Point(lastLat, lastLng)];
      }
    }
  }

  /** The last point of a track, or the origin the running sums start from. */
  function LastPoint(pts: seq<Point>): Point {
    if pts == [] then Point(0, 0) else pts[|pts| - 1]
  }

  /** `DeltaSum` looks only at the first 2k values. */
  lemma {:induction false} DeltaSumPrefix(values: seq<nat>, extra: seq<nat>, parity: nat, k: nat)
    requires parity < 2 && 2 * k <= |values|
    ensures DeltaSum(values + extra, parity, k) == DeltaSum(values, parity, k)
    decreases k
  {
    if k > 0 {
      DeltaSumPrefix(values, extra, parity, k - 1);
      assert (values + extra)[2 * (k - 1) + parity] == values[2 * (k - 1) + parity];
    }
  }

  /** Values past the first 2m do not change the first m points. */
  lemma {:induction false} TrackPrefixExtend(values: seq<nat>, extra: seq<nat>, m: nat)
    requires 2 * m <= |values|
    ensures TrackPrefix(values + extra, m) == TrackPrefix(values, m)
    decreases m
  {
    if m > 0 {
      TrackPrefixExtend(values, extra, m - 1);
      DeltaSumPrefix(values, extra, 0, m);
      DeltaSumPrefix(values, extra, 1, m);
    }
  }

  /** Each further pair of values adds one point: the previous point (the origin at first)
      moved by the pair's signed deltas. */
  lemma TrackAppendPair(values: seq<nat>, a: nat, b: nat)
    requires |values| % 2 == 0
    ensures Track(values + [a, b])
         == Track(values) + [Point(LastPoint(Track(values)).lat + ToSigned(a),
                                   LastPoint(Track(values)).lng + ToSigned(b))]
  {
    var m := |values| / 2;
    var longer := values + [a, b];
    assert |longer| / 2 == m + 1;
    assert longer[2 * m] == a && longer[2 * m + 1] == b;
    TrackPrefixExtend(values, [a, b], m);
    DeltaSumPrefix(values, [a, b], 0, m);
    DeltaSumPrefix(values, [a, b], 1, m);
  }

  /** An odd trailing value is dropped: it adds no point. */
  lemma TrackDropsOdd(values: seq<nat>, x: nat)
    requires |values| % 2 == 0
    ensures Track(values + [x]) == Track(values)
  {
    assert |values + [x]| / 2 == |values| / 2;
    TrackPrefixExtend(values, [x], |values| / 2);
  }

  /** The values a token for the points pts carries after its header: each coordinate as the
      zig-zag delta from the previous point, the first point's from the origin. */
  function Deltas(pts: seq<Point>): (deltas: seq<nat>)
    ensures |deltas| == 2 * |pts|
    decreases |pts|
  {
    if pts == [] then []
    else
      var init := pts[..|pts| - 1];
      var prev := LastPoint(init);
      var p := pts[|pts| - 1];
      Deltas(init) + [ToUnsigned(p.lat - prev.lat), ToUnsigned(p.lng - prev.lng)]
  }

  /** Adding the signed delta from prev to p to prev gives p back. */
  lemma DeltaStep(prev: Point, p: Point)
    ensures Point(prev.lat + ToSigned(ToUnsigned(p.lat - prev.lat)),
                  prev.lng + ToSigned(ToUnsigned(p.lng - prev.lng))) == p
  {
  }

  /** The running sums undo the deltas. */
  lemma {:induction false} TrackDeltas(pts: seq<Point>)
    ensures Track(Deltas(pts)) == pts
    decreases |pts|
  {
    if pts != [] {
      var init := pts[..|pts| - 1];
      var prev := LastPoint(init);
      var p := pts[|pts| - 1];
      TrackDeltas(init);
      assert Deltas(pts) == Deltas(init) + [ToUnsigned(p.lat - prev.lat), ToUnsigned(p.lng - prev.lng)];
      TrackAppendPair(Deltas(init), ToUnsigned(p.lat - prev.lat), ToUnsigned(p.lng - prev.lng));
      DeltaStep(prev, p);
      assert init + [p] == pts;
    }
  }

  /** A token holding any number of points, which `_decode` reads although `_encode` writes
      only one, decodes to exactly those points. */
  lemma ChainRoundTrip(precision: nat, pts: seq<Point>)
    requires precision <= 15
    ensures DecodeToken(HeaderChars(precision) + VarintConcat(Deltas(pts)))
         == Ok(Decoded(precision, pts))
  {
    var deltas := Deltas(pts);
    var values := [FormatVersion, precision] + deltas;
    assert values[0] == FormatVersion && values[1..] == [precision] + deltas;
    assert ([precision] + deltas)[0] == precision && ([precision] + deltas)[1..] == deltas;
    assert HeaderChars(precision) + VarintConcat(deltas) == VarintConcat(values);
    RoundTrip(values);
    HeaderRoundTrip(precision, deltas);
    assert values[2..] == deltas;
    TrackDeltas(pts);
  }

  /** The token `_encode` writes for a point is the one-point case of a delta chain. */
  lemma PointTokenIsChain(precision: nat, p: Point)
    ensures PointToken(precision, p) == HeaderChars(precision) + VarintConcat(Deltas([p]))
  {
    var u, w := ToUnsigned(p.lat - 0), ToUnsigned(p.lng - 0);
    assert [p][..0] == [];
    assert Deltas([p]) == [u, w];
    assert [u, w][1..] == [w] && [w][1..] == [];
    assert VarintConcat([w]) == Varint(w) + [];
    assert VarintConcat([u, w]) == Varint(u) + Varint(w);
  }

  /** `_decode` undoes `_encode`: the token for one point decodes to that point alone, at the
      precision it was written with. */
  lemma PointRoundTrip(precision: nat, p: Point)
    requires precision <= 15
    ensures DecodeToken(PointToken(precision, p)) == Ok(Decoded(precision, [p]))
  {
    PointTokenIsChain(precision, p);
    ChainRoundTrip(precision, [p]);
  }

  /** `encode` with `is_list`: one token per point, in order. An empty list gives no token
      whatever the precision, since no point reaches the header check. */
  method EncodeList(points: seq<Point>, precision: int) returns (r: Result<seq<string>>)
    ensures r.Ok? <==> points == [] || 0 <= precision <= 15
    ensures r.Err? ==> r.error == PrecisionOutOfRange
    ensures r.Ok? ==> |r.value| == |points|
    ensures r.Ok? ==> forall k | 0 <= k < |points| ::
      0 <= precision && r.value[k] == PointToken(precision, points[k])
  {
    var output: seq<string> := [];
    for i := 0 to |points|
      invariant |output| == i
      invariant i > 0 ==> 0 <= precision <= 15
      invariant forall k | 0 <= k < i :: 0 <= precision && output[k] == PointToken(precision, points[k])
    {
      var line :- EncodePoint(points[i], precision);
      output := output + [line];
    }
    return Ok(output);
  }

  /** A token numpy can stack as one row of the batch output: it decodes, holds exactly one
      point, and the flat row form was asked for. */
  predicate IsRow(token: string, isHere: bool) {
    var d := DecodeToken(token);
    d.Ok? && !isHere && |d.value.points| == 1
  }

  /** What `decode` with `is_list` computes: the tokens decoded in order, each one a row. The
      first token that is not a row decides the error. */
  function DecodeAll(tokens: seq<string>, isHere: bool): Result<seq<Decoded>> {
    if tokens == [] then Ok([])
    else
      var d :- DecodeToken(tokens[0]);
      if isHere || |d.points| != 1 then Err(ShapeMismatch)
      else
        var rest :- DecodeAll(tokens[1..], isHere);
        Ok([d] + rest)
  }

  /** The batch succeeds exactly when every token is a row, and then holds one result per
      token, in order. */
  lemma {:induction false} DecodeAllRows(tokens: seq<string>, isHere: bool)
    ensures DecodeAll(tokens, isHere).Ok? <==> forall k | 0 <= k < |tokens| :: IsRow(tokens[k], isHere)
    ensures DecodeAll(tokens, isHere).Ok? ==> |DecodeAll(tokens, isHere).value| == |tokens|
    ensures DecodeAll(tokens, isHere).Ok? ==> forall k | 0 <= k < |tokens| ::
      DecodeToken(tokens[k]) == Ok(DecodeAll(tokens, isHere).value[k])
    decreases |tokens|
  {
    if tokens != [] {
      DecodeAllRows(tokens[1..], isHere);
      assert forall k | 1 <= k < |tokens| :: tokens[1..][k - 1] == tokens[k];
    }
  }

  /** The decoded tokens before position i, followed by the outcome for the tokens from i on. */
  function After(done: seq<Decoded>, outcome: Result<seq<Decoded>>): Result<seq<Decoded>> {
    if outcome.Ok? then Ok(done + outcome.value) else outcome
  }

  /** `decode` with `is_list`: decode each token and stack it as one row. */
  method DecodeList(tokens: seq<string>, isHere: bool) returns (r: Result<seq<Decoded>>)
    ensures r == DecodeAll(tokens, isHere)
  {
    var output: seq<Decoded> := [];
    assert tokens[0..] == tokens;
    ghost var all := DecodeAll(tokens, isHere);
    assert all.Ok? ==> [] + all.value == all.value;
    for i := 0 to |tokens|
      invariant DecodeAll(tokens, isHere) == After(output, DecodeAll(tokens[i..], isHere))
    {
      assert tokens[i..][0] == tokens[i] && tokens[i..][1..] == tokens[i + 1..];
      var point :- Decode(tokens[i]);
      if isHere || |point.points| != 1 {
        return Err(ShapeMismatch);
      }
      ghost var rest := DecodeAll(tokens[i + 1..], isHere);
      assert rest.Ok? ==> output + ([point] + rest.value) == output + [point] + rest.value;
      output := output + [point];
    }
    assert tokens[|tokens|..] == [];
    assert output + [] == output;
    return Ok(output);
  }

  /** Decoding the tokens `encode` writes for a list of points gives back one row per point,
      in order, each at the precision it was written with. */
  lemma BatchRoundTrip(points: seq<Point>, precision: nat)
    requires precision <= 15
    ensures DecodeAll(seq(|points|, k requires 0 <= k < |points| => PointToken(precision, points[k])), false)
         == Ok(seq(|points|, k requires 0 <= k < |points| => Decoded(precision, [points[k]])))
  {
    var tokens := seq(|points|, k requires 0 <= k < |points| => PointToken(precision, points[k]));
    var rows := seq(|points|, k requires 0 <= k < |points| => Decoded(precision, [points[k]]));
    forall k | 0 <= k < |tokens|
      ensures DecodeToken(tokens[k]) == Ok(rows[k])
    {
      PointRoundTrip(precision, points[k]);
    }
    assert forall k | 0 <= k < |tokens| :: IsRow(tokens[k], false);
    DecodeAllRows(tokens, false);
    var r := DecodeAll(tokens, false);
    assert r.value == rows;
  }

  /** The token for (50.1022829, 8.6982122) at precision 5, scaled to (5010228, 869821). */
  lemma ExamplePointToken()
    ensures PointToken(5, Point(5010228, 869821)) == "BFoz5xJ67i1B"
  {
    ExampleTokenParts(Point(5010228, 869821));
    ExampleTokenJoined();
  }

  /** The example token part by part: the header, then the latitude, then the longitude. */
  lemma ExampleTokenParts(p: Point)
    requires p == Point(5010228, 869821)
    ensures PointToken(5, p) == "BF" + "oz5xJ" + "67i1B"
  {
    assert ToUnsigned(p.lat - 0) == 10020456 && ToUnsigned(p.lng - 0) == 1739642;
    assert Varint(FormatVersion) == [Symbol(1)] && Symbol(1) == 'B';
    assert Varint(5) == [Symbol(5)] && Symbol(5) == 'F';
    ExampleLatitude();
    ExampleLongitude();
  }

  lemma ExampleTokenJoined()
    ensures "BF" + "oz5xJ" + "67i1B" == "BFoz5xJ67i1B"
  {
  }

  /** Decoding the example token gives back the example point. */
  lemma ExamplePointDecodes()
    ensures DecodeToken("BFoz5xJ67i1B") == Ok(Decoded(5, [Point(5010228, 869821)]))
  {
    ExamplePointToken();
    PointRoundTrip(5, Point(5010228, 869821));
  }
}
