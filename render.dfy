/**
 * The engine's render-target registry, seen only as records: a target has
 * a size and an ordered list of sprite layers. Nested sprite arrays pushed
 * with `sprites << [...]` are listed flat, in the order they are drawn.
 */
module Render {
  import opened Wrappers
  import Decimal

  /** A Ruby value stored in an attribute: an integer, a string or a symbol. */
  datatype Value = Num(n: int) | Str(s: string) | Sym(name: string)

  /** One sprite hash in a target's `sprites`; absent keys are `None`. */
  datatype Layer = Layer(x: int, y: int, w: int, h: int, path: Value, angle: Option<int>, blendmode: Option<int>)

  datatype Target = Target(w: int, h: int, layers: seq<Layer>)

  /** The shared mask `:circle`. */
  const MaskName: string := "circle"
  const MaskSide: int := 1280
  const MaskLayerCount: nat := 360

  /** The engine's blend mode 4, which clips an image to the mask below it. */
  const MaskBlendMode: int := 4

  /** Layer `i` of the mask: a white square turned by `i / 4` degrees. */
  function MaskLayer(i: nat): (l: Layer)
    ensures l.angle.Some? && 4 * l.angle.value <= i < 4 * l.angle.value + 4
    ensures i < MaskLayerCount ==> 0 <= l.angle.value <= 89
  {
    Layer(187, 187, 905, 905, Sym("pixel"), Some(i / 4), None)
  }

  predicate IsMaskLayers(layers: seq<Layer>)
  {
    |layers| == MaskLayerCount && forall i :: 0 <= i < |layers| ==> layers[i] == MaskLayer(i)
  }

  /** The `:circle` target as the first construction leaves it. */
  predicate IsMaskTarget(t: Target)
  {
    t.w == MaskSide && t.h == MaskSide && IsMaskLayers(t.layers)
  }

  /** The two layers `path=` draws into a circle's target. */
  function PathLayers(w: int, h: int, path: Value): seq<Layer>
  {
    [Layer(0, 0, w, h, Sym(MaskName), None, None), Layer(0, 0, w, h, path, None, Some(MaskBlendMode))]
  }

  /** A target as `path=` leaves it: the mask, then one image clipped to it, both filling the target. */
  predicate IsPathTarget(t: Target)
  {
    |t.layers| == 2 && t.layers == PathLayers(t.w, t.h, t.layers[1].path)
  }

  /**
   * The private render target of the `n`-th circle, `:"circle#{n}"`: the
   * mask's name followed by digits that read back as `n`.
   */
  function TargetName(n: nat): (name: string)
    ensures |name| > |MaskName| && name[..|MaskName|] == MaskName
    ensures Decimal.AllDigits(name[|MaskName|..]) && Decimal.ParseNat(name[|MaskName|..]) == n
  {
    Decimal.ParseNatToString(n);
    var name := MaskName + Decimal.NatToString(n);
    assert name[|MaskName|..] == Decimal.NatToString(n);
    name
  }

  /** Circles' target names never collide with each other or with the mask. */
  lemma TargetNamesDistinct(m: nat, n: nat)
    ensures TargetName(n) != MaskName
    ensures m != n ==> TargetName(m) != TargetName(n)
  {
    var a, b := TargetName(m), TargetName(n);
    assert |b| > |MaskName|;
    if a == b {
      assert a[|MaskName|..] == Decimal.NatToString(m);
      assert b[|MaskName|..] == Decimal.NatToString(n);
      Decimal.NatToStringInjective(m, n);
    }
  }

  /**
   * `360.times.map { |i| {... angle: i / 4} }`: the generated layers, one per
   * step, with angles rising from 0 to 89 degrees, each used four times.
   */
  method BuildMaskLayers() returns (layers: seq<Layer>)
    ensures |layers| == MaskLayerCount
    ensures forall i :: 0 <= i < |layers| ==>
              && layers[i].x == 187 && layers[i].y == 187
              && layers[i].w == 905 && layers[i].h == 905
              && layers[i].path == Sym("pixel") && layers[i].blendmode.None?
              && layers[i].angle == Some(i / 4)
    ensures forall i, j :: 0 <= i <= j < |layers| ==>
              0 <= layers[i].angle.value <= layers[j].angle.value <= 89
    ensures IsMaskLayers(layers)
  {
    layers := [];
    for i := 0 to MaskLayerCount
      invariant |layers| == i
      invariant forall k :: 0 <= k < i ==> layers[k] == MaskLayer(k)
    {
      layers := layers + [MaskLayer(i)];
    }
  }

  /** Every whole degree from 0 to 89 is the angle of exactly the four layers `4d .. 4d + 3`. */
  lemma MaskAngleCoverage(layers: seq<Layer>, d: int)
    requires IsMaskLayers(layers) && 0 <= d < 90
    ensures forall i :: 0 <= i < |layers| ==> (layers[i].angle == Some(d) <==> 4 * d <= i < 4 * d + 4)
  {
  }
}
