/**
 * The `Circle` class: its class-wide state (instance counter, mask flag and
 * the engine's render targets, held by a `Registry`), its fields, the
 * `rx`/`ry` aliases, the `path=` setter that rebuilds the private render
 * target, and the attribute merge `<<`.
 *
 * What `<<` does to a circle is specified on values first (`Entity`,
 * `Assign`, `MergeAll`); the class methods are proved against that.
 */
module Circles {
  import opened Wrappers
  import opened Render
  import Geometry

  /** One `key => value` pair of an argument hash, keys as symbol names. */
  type Attr = (string, Value)

  predicate IsPathKey(k: string) { k == "path" || k == "path=" }
  predicate IsRxKey(k: string) { k == "rx" || k == "rx=" }
  predicate IsRyKey(k: string) { k == "ry" || k == "ry=" }

  /** The keys `<<` hands to a setter instead of storing them. */
  predicate IsRouted(k: string) { IsPathKey(k) || IsRxKey(k) || IsRyKey(k) }

  /** The instance variables the class itself reads as numbers. */
  predicate IsGeometryField(k: string) { k == "x" || k == "y" || k == "w" || k == "h" }

  predicate IsNameStart(c: char) { 'a' <= c <= 'z' || 'A' <= c <= 'Z' || c == '_' }
  predicate IsNameChar(c: char) { IsNameStart(c) || '0' <= c <= '9' }

  /** A name `attr_accessor` accepts (local or constant identifier, ASCII letters). */
  predicate IsAttributeName(k: string)
  {
    |k| > 0 && IsNameStart(k[0]) && forall i :: 1 <= i < |k| ==> IsNameChar(k[i])
  }

  /** A key `<<` gets through: routed, or a name `attr_accessor` does not raise on. */
  predicate Accepted(k: string) { IsRouted(k) || IsAttributeName(k) }

  /** A key stored only in the attribute bag. */
  predicate IsPlainKey(k: string)
  {
    IsAttributeName(k) && !IsRouted(k) && !IsGeometryField(k) && k != "path_dir"
  }

  /** Keys whose values the class does arithmetic on carry numbers. */
  predicate WellTyped(a: Attr)
  {
    (IsRxKey(a.0) || IsRyKey(a.0) || IsGeometryField(a.0)) ==> a.1.Num?
  }

  predicate AllWellTyped(args: seq<Attr>)
  {
    forall i :: 0 <= i < |args| ==> WellTyped(args[i])
  }

  predicate AllAccepted(args: seq<Attr>)
  {
    forall i :: 0 <= i < |args| ==> Accepted(args[i].0)
  }

  function KeysOf(args: seq<Attr>): set<string>
  {
    set i | 0 <= i < |args| :: args[i].0
  }

  /**
   * The state of one circle: its instance variables (`@path_dir` is
   * `pathDir`, every other stored key is in `extra`) and the contents of its
   * private render target, if one has been written.
   */
  datatype Entity = Entity(x: int, y: int, w: int, h: int, pathDir: Option<Value>,
                           extra: map<string, Value>, rt: Option<Target>)
  {
    /** `rx`/`ry`: `Geometry.FloorHalf`, the same reading as `Geometry.Shape.Rx` and `Circle.Rx`. */
    function Rx(): int { Geometry.FloorHalf(w) }
    function Ry(): int { Geometry.FloorHalf(h) }
  }

  /** A circle right after `initialize` set `@x = @y = @w = @h = 0`. */
  const Initial: Entity := Entity(0, 0, 0, 0, None, map[], None)

  /** One step of `<<`: a routed key goes to its setter, any other key is stored. */
  function Assign(e: Entity, a: Attr): (r: Entity)
    requires WellTyped(a)
    ensures !IsPathKey(a.0) ==> r.rt == e.rt
    ensures IsPathKey(a.0) ==> r.rt.Some? && IsPathTarget(r.rt.value) && r.rt.value.w == e.w && r.rt.value.h == e.h
    ensures r.extra.Keys <= e.extra.Keys + {a.0}
    ensures IsPlainKey(a.0) ==> r == e.(extra := e.extra[a.0 := a.1])
  {
    var (k, v) := a;
    if IsPathKey(k) then e.(rt := Some(Target(e.w, e.h, PathLayers(e.w, e.h, v))), pathDir := Some(v))
    else if IsRxKey(k) then e.(w := v.n * 2)
    else if IsRyKey(k) then e.(h := v.n * 2)
    else if k == "x" then e.(x := v.n)
    else if k == "y" then e.(y := v.n)
    else if k == "w" then e.(w := v.n)
    else if k == "h" then e.(h := v.n)
    else if k == "path_dir" then e.(pathDir := Some(v))
    else e.(extra := e.extra[k := v])
  }

  /** `<<` in hash order; a key `attr_accessor` rejects raises, so later keys are not applied. */
  function MergeAll(e: Entity, args: seq<Attr>): (r: Entity)
    requires AllWellTyped(args)
    ensures r.rt == e.rt || (r.rt.Some? && IsPathTarget(r.rt.value))
    decreases |args|
  {
    if args == [] || !Accepted(args[0].0) then e
    else MergeAll(Assign(e, args[0]), args[1..])
  }

  // ---------------------------------------------------------------------
  // Properties of `<<`

  /** One accepted pair, then the rest. */
  lemma MergeAllCons(e: Entity, a: Attr, rest: seq<Attr>)
    requires WellTyped(a) && AllWellTyped(rest) && Accepted(a.0)
    ensures AllWellTyped([a] + rest)
    ensures MergeAll(e, [a] + rest) == MergeAll(Assign(e, a), rest)
  {
    var args := [a] + rest;
    assert args[0] == a && args[1..] == rest;
  }

  lemma WellTypedSplit(a: seq<Attr>, b: seq<Attr>)
    requires AllWellTyped(a + b)
    ensures AllWellTyped(a) && AllWellTyped(b)
  {
    forall i | 0 <= i < |a| ensures WellTyped(a[i]) { assert (a + b)[i] == a[i]; }
    forall i | 0 <= i < |b| ensures WellTyped(b[i]) { assert (a + b)[|a| + i] == b[i]; }
  }

  /** Merging two hashes one after the other is merging them together. */
  lemma {:induction false} MergeAllAppend(e: Entity, a: seq<Attr>, b: seq<Attr>)
    requires AllWellTyped(a + b) && AllAccepted(a)
    ensures AllWellTyped(a) && AllWellTyped(b)
    ensures MergeAll(e, a + b) == MergeAll(MergeAll(e, a), b)
    decreases |a|
  {
    WellTypedSplit(a, b);
    if a == [] {
      assert a + b == b;
    } else {
      assert (a + b)[0] == a[0];
      assert (a + b)[1..] == a[1..] + b;
      MergeAllAppend(Assign(e, a[0]), a[1..], b);
    }
  }

  /** A rejected key ends the merge: what came before it stays applied, nothing after it is. */
  lemma {:induction false} MergeStopsAtRejectedKey(e: Entity, a: seq<Attr>, bad: Attr, b: seq<Attr>)
    requires AllWellTyped(a + [bad] + b) && AllAccepted(a) && !Accepted(bad.0)
    ensures AllWellTyped(a)
    ensures MergeAll(e, a + [bad] + b) == MergeAll(e, a)
  {
    assert a + [bad] + b == a + ([bad] + b);
    MergeAllAppend(e, a, [bad] + b);
  }

  lemma KeysOfCons(args: seq<Attr>)
    requires args != []
    ensures KeysOf(args) == {args[0].0} + KeysOf(args[1..])
  {
    forall k | k in KeysOf(args) ensures k in {args[0].0} + KeysOf(args[1..]) {
      var i :| 0 <= i < |args| && args[i].0 == k;
      if i > 0 { assert args[1..][i - 1] == args[i]; }
    }
    forall k | k in KeysOf(args[1..]) ensures k in KeysOf(args) {
      var i :| 0 <= i < |args[1..]| && args[1..][i].0 == k;
      assert args[i + 1] == args[1..][i];
    }
  }

  /**
   * Only the setters and the named keys change a field: the target only
   * through `path`, `w` only through `rx` or `w`, and so on.
   */
  lemma {:induction false} SettersOnly(e: Entity, args: seq<Attr>)
    requires AllWellTyped(args)
    ensures var r, ks := MergeAll(e, args), KeysOf(args);
            && ("path" !in ks && "path=" !in ks ==> r.rt == e.rt)
            && ("path" !in ks && "path=" !in ks && "path_dir" !in ks ==> r.pathDir == e.pathDir)
            && ("rx" !in ks && "rx=" !in ks && "w" !in ks ==> r.w == e.w)
            && ("ry" !in ks && "ry=" !in ks && "h" !in ks ==> r.h == e.h)
            && ("x" !in ks ==> r.x == e.x)
            && ("y" !in ks ==> r.y == e.y)
    decreases |args|
  {
    if args != [] && Accepted(args[0].0) {
      KeysOfCons(args);
      SettersOnly(Assign(e, args[0]), args[1..]);
    }
  }

  /** The attribute bag gains only keys of the hash, and an entry changes only through its own key. */
  lemma {:induction false} BagChangesOnlyByKey(e: Entity, args: seq<Attr>, k: string)
    requires AllWellTyped(args)
    ensures MergeAll(e, args).extra.Keys <= e.extra.Keys + KeysOf(args)
    ensures k in e.extra && k !in KeysOf(args) ==> k in MergeAll(e, args).extra && MergeAll(e, args).extra[k] == e.extra[k]
    decreases |args|
  {
    if args != [] && Accepted(args[0].0) {
      KeysOfCons(args);
      BagChangesOnlyByKey(Assign(e, args[0]), args[1..], k);
    }
  }

  /** A plain key ends up holding the value of its last occurrence. */
  lemma {:induction false} LastWriteWins(e: Entity, pre: seq<Attr>, k: string, v: Value, post: seq<Attr>)
    requires AllWellTyped(pre + [(k, v)] + post) && AllAccepted(pre)
    requires IsPlainKey(k) && k !in KeysOf(post)
    ensures var r := MergeAll(e, pre + [(k, v)] + post); k in r.extra && r.extra[k] == v
  {
    var one: seq<Attr> := [(k, v)];
    assert AllAccepted(pre + one) by {
      forall i | 0 <= i < |pre + one| ensures Accepted((pre + one)[i].0) {
        if i < |pre| { assert (pre + one)[i] == pre[i]; }
      }
    }
    MergeAllAppend(e, pre + one, post);
    MergeAllAppend(e, pre, one);
    var mid := MergeAll(e, pre);
    assert MergeAll(mid, one) == MergeAll(Assign(mid, (k, v)), []);
    BagChangesOnlyByKey(MergeAll(mid, one), post, k);
  }

  /** `rx = r` makes `rx` read `r` back, and leaves the height alone. */
  lemma RxRoundTrip(e: Entity, r: int)
    ensures Assign(e, ("rx", Num(r))).Rx() == r && Assign(e, ("rx", Num(r))).w == 2 * r
    ensures Assign(e, ("rx", Num(r))).h == e.h && Assign(e, ("rx", Num(r))).Ry() == e.Ry()
  {
  }

  lemma RyRoundTrip(e: Entity, r: int)
    ensures Assign(e, ("ry", Num(r))).Ry() == r && Assign(e, ("ry", Num(r))).h == 2 * r
    ensures Assign(e, ("ry", Num(r))).w == e.w && Assign(e, ("ry", Num(r))).Rx() == e.Rx()
  {
  }

  /** `path = p`: the target is the current size with the mask then `p`, and `path` reads `p`. */
  lemma PathSetter(e: Entity, p: Value)
    ensures var r := Assign(e, ("path", p));
            && r.pathDir == Some(p)
            && r.rt == Some(Target(e.w, e.h, [Layer(0, 0, e.w, e.h, Sym("circle"), None, None),
                                               Layer(0, 0, e.w, e.h, p, None, Some(4))]))
            && r.(rt := e.rt, pathDir := e.pathDir) == e
  {
  }

  // ---------------------------------------------------------------------
  // Class-wide state

  /** `@@instances`, `@@circle_rt_exists` and the engine's render targets by name. */
  class Registry {
    var instances: nat
    var circleRtExists: bool
    var targets: map<string, Target>

    /**
     * The mask exists exactly once a circle has been built and then holds
     * the generated layers; no target is named for a circle not yet built.
     */
    ghost predicate Valid()
      reads this
    {
      && (circleRtExists <==> instances > 0)
      && (circleRtExists ==> MaskName in targets && IsMaskTarget(targets[MaskName]))
      && (!circleRtExists ==> MaskName !in targets)
      && (forall n: nat :: n > instances ==> TargetName(n) !in targets)
    }

    /** The state right after `GTK.reset` and the class body. */
    constructor ()
      ensures Valid()
      ensures instances == 0 && !circleRtExists && targets == map[]
    {
      instances := 0;
      circleRtExists := false;
      targets := map[];
    }
  }

  class Circle {
    const reg: Registry
    /** The value of `@@instances` this circle was built with. */
    ghost const id: nat
    /** `@path`: the name of the private render target. */
    const target: string
    var x: int
    var y: int
    var w: int
    var h: int
    /** `@path_dir`: the image shown through the mask. */
    var pathDir: Option<Value>
    /** Every other instance variable added by `<<`. */
    var extra: map<string, Value>

    ghost predicate Valid()
      reads this, reg
    {
      reg.Valid() && 1 <= id <= reg.instances && target == TargetName(id)
    }

    /** This circle's state as a value. */
    function Fields(): Entity
      reads this, reg
    {
      Entity(x, y, w, h, pathDir, extra, if target in reg.targets then Some(reg.targets[target]) else None)
    }

    /** `initialize` up to (not including) `self << args`. */
    constructor (reg: Registry)
      requires reg.Valid()
      modifies reg
      ensures Valid() && this.reg == reg
      ensures reg.instances == old(reg.instances) + 1
      ensures id == reg.instances && target == TargetName(reg.instances)
      ensures reg.circleRtExists
      ensures old(reg.circleRtExists) ==> reg.targets == old(reg.targets)
      ensures reg.targets - {MaskName} == old(reg.targets) - {MaskName}
      ensures Fields() == Initial
    {
      reg.instances := reg.instances + 1;
      if !reg.circleRtExists {
        reg.circleRtExists := true;
        // no circle yet, so `:circle` is a new target and `<<` gives it just these layers
        var generated := BuildMaskLayers();
        reg.targets := reg.targets[MaskName := Target(MaskSide, MaskSide, generated)];
      }
      this.reg := reg;
      id := reg.instances;
      target := TargetName(reg.instances);
      x, y, w, h := 0, 0, 0, 0;
      pathDir := None;
      extra := map[];
      new;
      forall n: nat | n > reg.instances ensures TargetName(n) !in reg.targets {
        TargetNamesDistinct(0, n);
      }
      TargetNamesDistinct(0, reg.instances);
    }

    /** `rx`: half the width, rounded down (`Geometry.FloorHalf`). */
    function Rx(): (r: int)
      reads this
      ensures 2 * r <= w < 2 * r + 2
    {
      Geometry.FloorHalf(w)
    }

    /** `ry`: half the height, rounded down (`Geometry.FloorHalf`). */
    function Ry(): (r: int)
      reads this
      ensures 2 * r <= h < 2 * r + 2
    {
      Geometry.FloorHalf(h)
    }

    /** `rx=`: the width becomes twice the radius; nothing else changes. */
    method SetRx(r: int)
      requires Valid()
      modifies this
      ensures Valid()
      ensures Rx() == r && w == 2 * r
      ensures Fields() == old(Fields()).(w := 2 * r)
    {
      w := r * 2;
    }

    /** `ry=`: the height becomes twice the radius; nothing else changes. */
    method SetRy(r: int)
      requires Valid()
      modifies this
      ensures Valid()
      ensures Ry() == r && h == 2 * r
      ensures Fields() == old(Fields()).(h := 2 * r)
    {
      h := r * 2;
    }

    /** `path`: the image last given, not the render target's name. */
    function Path(): Option<Value>
      reads this
    {
      pathDir
    }

    /**
     * `path=`: the private target is resized to the current `w`×`h` and its
     * layers replaced by the mask and then `p` with blend mode 4; no other
     * target and no other field changes.
     */
    method SetPath(p: Value)
      requires Valid()
      modifies this, reg
      ensures Valid()
      ensures Path() == Some(p)
      ensures reg.targets == old(reg.targets)[target := Target(w, h, PathLayers(w, h, p))]
      ensures reg.instances == old(reg.instances) && reg.circleRtExists == old(reg.circleRtExists)
      ensures Fields() == old(Fields()).(rt := Some(Target(w, h, PathLayers(w, h, p))), pathDir := Some(p))
    {
      var output := if target in reg.targets then reg.targets[target] else Target(0, 0, []);
      output := output.(w := w, h := h);
      output := output.(layers := []);
      output := output.(layers := output.layers + PathLayers(w, h, p));
      assert output == Target(w, h, PathLayers(w, h, p));
      reg.targets := reg.targets[target := output];
      pathDir := Some(p);
      forall n: nat | n > reg.instances ensures TargetName(n) !in reg.targets {
        TargetNamesDistinct(id, n);
      }
      TargetNamesDistinct(0, id);
    }

    /** `instance_variable_set` for a key `<<` does not route. */
    method SetField(k: string, v: Value)
      requires Valid() && WellTyped((k, v)) && !IsRouted(k)
      modifies this
      ensures Valid()
      ensures Fields() == Assign(old(Fields()), (k, v))
    {
      if k == "x" {
        x := v.n;
      } else if k == "y" {
        y := v.n;
      } else if k == "w" {
        w := v.n;
      } else if k == "h" {
        h := v.n;
      } else if k == "path_dir" {
        pathDir := Some(v);
      } else {
        extra := extra[k := v];
      }
    }

    /**
     * `<<`: the pairs in order through `Assign`. `ok == false` stands for the
     * `NameError` that `attr_accessor` raises on a bad key; the pairs before
     * it stay applied.
     */
    method Merge(args: seq<Attr>) returns (ok: bool)
      requires Valid() && AllWellTyped(args)
      modifies this, reg
      ensures Valid()
      ensures ok <==> AllAccepted(args)
      ensures Fields() == MergeAll(old(Fields()), args)
      ensures reg.instances == old(reg.instances) && reg.circleRtExists == old(reg.circleRtExists)
      ensures reg.targets - {target} == old(reg.targets) - {target}
    {
      var i := 0;
      while i < |args|
        invariant 0 <= i <= |args|
        invariant Valid()
        invariant forall j :: 0 <= j < i ==> Accepted(args[j].0)
        invariant MergeAll(old(Fields()), args) == MergeAll(Fields(), args[i..])
        invariant reg.instances == old(reg.instances) && reg.circleRtExists == old(reg.circleRtExists)
        invariant reg.targets - {target} == old(reg.targets) - {target}
      {
        var (k, v) := args[i];
        assert args[i..][0] == (k, v) && args[i..][1..] == args[i + 1..];
        if !Accepted(k) {
          return false;
        }
        ghost var before := Fields();
        assert MergeAll(before, args[i..]) == MergeAll(Assign(before, (k, v)), args[i + 1..]);
        if IsPathKey(k) {
          SetPath(v);
          assert Fields() == Assign(before, (k, v));
        } else if IsRxKey(k) {
          SetRx(v.n);
          assert Fields() == Assign(before, (k, v));
        } else if IsRyKey(k) {
          SetRy(v.n);
          assert Fields() == Assign(before, (k, v));
        } else {
          SetField(k, v);
        }
        i := i + 1;
      }
      return true;
    }

    /**
     * `Circle.new(**args)` (and `Hash#to_circle`): a fresh circle, then
     * `self << args`. When `ok` is false, `<<` raised inside `initialize`:
     * Ruby's `Circle.new` then returns no object, and `c` stands for an
     * instance no Ruby code receives, while the counter, the mask and the
     * targets written before the raise stay as stated here.
     */
    static method New(reg: Registry, args: seq<Attr>) returns (c: Circle, ok: bool)
      requires reg.Valid() && AllWellTyped(args)
      modifies reg
      ensures fresh(c) && c.Valid() && c.reg == reg
      ensures reg.instances == old(reg.instances) + 1 && c.target == TargetName(reg.instances)
      ensures ok <==> AllAccepted(args)
      ensures c.Fields() == MergeAll(Initial, args)
      ensures reg.circleRtExists
      ensures old(reg.circleRtExists) ==> MaskName in old(reg.targets) && reg.targets[MaskName] == old(reg.targets)[MaskName]
      ensures reg.targets - {MaskName, c.target} == old(reg.targets) - {MaskName, c.target}
    {
      c := new Circle(reg);
      ghost var built := reg.targets;
      ok := c.Merge(args);
      TargetNamesDistinct(0, reg.instances);
      assert reg.targets - {MaskName, c.target} == (reg.targets - {c.target}) - {MaskName};
      assert old(reg.targets) - {MaskName, c.target} == (old(reg.targets) - {MaskName}) - {c.target};
      assert built - {MaskName, c.target} == (built - {c.target}) - {MaskName};
      assert built - {MaskName, c.target} == (built - {MaskName}) - {c.target};
    }

    /** The circle as an operand of the collision oracle. */
    function Shape(): Geometry.Shape
      reads this
    {
      Geometry.Circle(x, y, w, h)
    }
  }
}
