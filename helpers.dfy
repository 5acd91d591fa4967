/**
 * Post-processing of the items the table returns: turning every decimal
 * below the top of a nested structure into a float (`decimal_to_float`),
 * and stripping the `image` attribute from the dicts of a list
 * (`remove_image_from_dicts`).
 */
module Helpers {
  import opened Wrappers
  import opened Values

  // ---------------------------------------------------------------------
  // decimal_to_float
  // ---------------------------------------------------------------------

  /** The values decimal_to_float descends into. */
  predicate IsContainer(v: Value) {
    v.Dict? || v.List?
  }

  /**
   * What decimal_to_float does to one entry of a dict or one slot of a
   * list: a container is walked, a decimal becomes its float conversion,
   * anything else stays.
   */
  function ConvertEntry(c: Value, cvt: Decimal -> Float): Value
    decreases c, 1
  {
    if IsContainer(c) then ToFloat(c, cvt)
    else if c.Dec? then Flt(cvt(c.d))
    else c
  }

  /**
   * The value decimal_to_float leaves behind. Only the entries of a
   * container are converted: a top-level scalar, a bare decimal
   * included, is returned as it is.
   */
  function ToFloat(v: Value, cvt: Decimal -> Float): Value
    decreases v, 0
  {
    match v
    case Dict(m) => Dict(map k | k in m :: ConvertEntry(m[k], cvt))
    case List(xs) => List(seq(|xs|, i requires 0 <= i < |xs| => ConvertEntry(xs[i], cvt)))
    case _ => v
  }

  /** A converted dict has the keys it had. */
  lemma ToFloatKeepsKeys(m: map<string, Value>, cvt: Decimal -> Float)
    ensures ToFloat(Dict(m), cvt).Dict? && ToFloat(Dict(m), cvt).entries.Keys == m.Keys
  {
  }

  /** One step into a nested value: a dict key or a list index. */
  datatype Step = Key(key: string) | Index(index: nat)

  /** The part of `v` reached by following `path`, if the path exists in `v`. */
  function At(v: Value, path: seq<Step>): Option<Value>
    decreases |path|
  {
    if path == [] then Some(v)
    else
      match path[0]
      case Key(k) =>
        if v.Dict? && k in v.entries then At(v.entries[k], path[1..]) else None
      case Index(i) =>
        if v.List? && i < |v.items| then At(v.items[i], path[1..]) else None
  }

  /**
   * Looking up a path in the converted value is the same as looking it up
   * in the original and converting what is found there.
   */
  lemma {:induction false} AtToFloat(v: Value, path: seq<Step>, cvt: Decimal -> Float)
    ensures At(ToFloat(v, cvt), path) ==
            match At(v, path)
            case None => None
            case Some(x) => Some(if path == [] then ToFloat(x, cvt) else ConvertEntry(x, cvt))
    decreases |path|, 0
  {
    if path != [] {
      var rest := path[1..];
      match path[0]
      case Key(k) =>
        if v.Dict? && k in v.entries {
          AtEntry(v.entries[k], rest, cvt);
        }
      case Index(i) =>
        if v.List? && i < |v.items| {
          AtEntry(v.items[i], rest, cvt);
        }
    }
  }

  /** The same, one level down: for an entry `c` that decimal_to_float converted. */
  lemma {:induction false} AtEntry(c: Value, rest: seq<Step>, cvt: Decimal -> Float)
    ensures At(ConvertEntry(c, cvt), rest) ==
            match At(c, rest)
            case None => None
            case Some(x) => Some(if rest == [] then ConvertEntry(c, cvt) else ConvertEntry(x, cvt))
    decreases |rest|, 1
  {
    if IsContainer(c) {
      AtToFloat(c, rest, cvt);
    } else if rest != [] {
      assert At(ConvertEntry(c, cvt), rest) == None;
    }
  }

  /**
   * decimal_to_float leaf by leaf, at every depth: the same paths exist
   * before and after; below the top every decimal becomes the float it
   * converts to and no decimal is left; a decimal at the top stays;
   * every other scalar stays; every dict keeps its keys and every list
   * its length.
   */
  lemma {:induction false} DecimalLeavesConverted(v: Value, path: seq<Step>, cvt: Decimal -> Float)
    ensures At(ToFloat(v, cvt), path).Some? <==> At(v, path).Some?
    ensures At(v, path).Some? && At(v, path).value.Dec? ==>
              At(ToFloat(v, cvt), path).value ==
                if path == [] then At(v, path).value else Flt(cvt(At(v, path).value.d))
    ensures path != [] && At(ToFloat(v, cvt), path).Some? ==> !At(ToFloat(v, cvt), path).value.Dec?
    ensures At(v, path).Some? && !At(v, path).value.Dec? && !IsContainer(At(v, path).value) ==>
              At(ToFloat(v, cvt), path) == At(v, path)
    ensures At(v, path).Some? && At(v, path).value.Dict? ==>
              At(ToFloat(v, cvt), path).value.Dict? &&
              At(ToFloat(v, cvt), path).value.entries.Keys == At(v, path).value.entries.Keys
    ensures At(v, path).Some? && At(v, path).value.List? ==>
              At(ToFloat(v, cvt), path).value.List? &&
              |At(ToFloat(v, cvt), path).value.items| == |At(v, path).value.items|
  {
    AtToFloat(v, path, cvt);
  }

  /** decimal_to_float is idempotent: a second pass finds nothing to convert. */
  lemma {:induction false} ToFloatIdempotent(v: Value, cvt: Decimal -> Float)
    ensures ToFloat(ToFloat(v, cvt), cvt) == ToFloat(v, cvt)
    decreases v, 0
  {
    match v
    case Dict(m) =>
      forall k | k in m
        ensures ConvertEntry(ConvertEntry(m[k], cvt), cvt) == ConvertEntry(m[k], cvt)
      {
        ConvertEntryIdempotent(m[k], cvt);
      }
    case List(xs) =>
      forall i | 0 <= i < |xs|
        ensures ConvertEntry(ConvertEntry(xs[i], cvt), cvt) == ConvertEntry(xs[i], cvt)
      {
        ConvertEntryIdempotent(xs[i], cvt);
      }
    case _ =>
  }

  lemma {:induction false} ConvertEntryIdempotent(c: Value, cvt: Decimal -> Float)
    ensures ConvertEntry(ConvertEntry(c, cvt), cvt) == ConvertEntry(c, cvt)
    decreases c, 1
  {
    if IsContainer(c) {
      ToFloatIdempotent(c, cvt);
    }
  }

  /**
   * decimal_to_float as the source runs it: a loop over the dict's keys or
   * the list's slots, descending into nested containers and replacing
   * each decimal entry. The keys are visited in an arbitrary order; the
   * result does not depend on it.
   */
  method DecimalToFloat(v: Value, cvt: Decimal -> Float) returns (r: Value)
    ensures r == ToFloat(v, cvt)
    decreases v
  {
    match v
    case Dict(m) =>
      var out := m;
      var pending := m.Keys;
      while pending != {}
        invariant pending <= m.Keys && out.Keys == m.Keys
        invariant forall k :: k in out ==> out[k] == if k in pending then m[k] else ConvertEntry(m[k], cvt)
        decreases pending
      {
        var k :| k in pending;
        var c := m[k];
        if IsContainer(c) {
          var c' := DecimalToFloat(c, cvt);
          out := out[k := c'];
        } else if c.Dec? {
          out := out[k := Flt(cvt(c.d))];
        }
        pending := pending - {k};
      }
      r := Dict(out);
    case List(xs) =>
      var ys := xs;
      for i := 0 to |xs|
        invariant |ys| == |xs|
        invariant forall j :: 0 <= j < |xs| ==> ys[j] == if j < i then ConvertEntry(xs[j], cvt) else xs[j]
      {
        var c := ys[i];
        if IsContainer(c) {
          var c' := DecimalToFloat(c, cvt);
          ys := ys[i := c'];
        } else if c.Dec? {
          ys := ys[i := Flt(cvt(c.d))];
        }
      }
      r := List(ys);
    case _ =>
      r := v;
  }

  // ---------------------------------------------------------------------
  // remove_image_from_dicts
  // ---------------------------------------------------------------------

  /** The name of the attribute that holds an item's image key. */
  const ImageAttr: string := "image"

  /**
   * Whether remove_image_from_dicts gets past this element: it must be a
   * dict, and a dict without `image` must at least have the `name` the
   * handler's log line reads; otherwise an exception escapes.
   */
  predicate CanStrip(v: Value) {
    v.Dict? && (ImageAttr in v.entries || "name" in v.entries)
  }

  /** A dict without its `image` attribute; anything else as it is. */
  function Stripped(v: Value): (r: Value)
    ensures r.Dict? <==> v.Dict?
    ensures v.Dict? ==> ImageAttr !in r.entries && r.entries.Keys == v.entries.Keys - {ImageAttr}
    ensures v.Dict? ==> forall k :: k in r.entries ==> r.entries[k] == v.entries[k]
    ensures !v.Dict? ==> r == v
  {
    if v.Dict? then Dict(v.entries - {ImageAttr}) else v
  }

  /** The index of the first element remove_image_from_dicts fails on, or the length. */
  function FirstFailure(s: seq<Value>): (j: nat)
    ensures j <= |s|
    ensures forall i :: 0 <= i < j ==> CanStrip(s[i])
    ensures j < |s| ==> !CanStrip(s[j])
  {
    if s == [] || !CanStrip(s[0]) then 0 else 1 + FirstFailure(s[1..])
  }

  /**
   * remove_image_from_dicts in place: each dict loses `image` in turn; a
   * dict without one is passed over. If an element stops the loop with an
   * exception (`ok` false), the elements before it have been stripped and
   * the rest are untouched.
   */
  method RemoveImageFromDicts(lst: array<Value>) returns (ok: bool)
    modifies lst
    ensures ok == (FirstFailure(old(lst[..])) == lst.Length)
    ensures forall i :: 0 <= i < lst.Length ==>
              lst[i] == if i < FirstFailure(old(lst[..])) then Stripped(old(lst[i])) else old(lst[i])
  {
    ghost var orig := lst[..];
    var i := 0;
    while i < lst.Length
      invariant 0 <= i <= lst.Length
      invariant forall j :: 0 <= j < i ==> CanStrip(orig[j])
      invariant forall j :: 0 <= j < lst.Length ==> lst[j] == if j < i then Stripped(orig[j]) else orig[j]
    {
      var v := lst[i];
      if !CanStrip(v) {
        ok := false;
        return;
      }
      lst[i] := Stripped(v);
      i := i + 1;
    }
    ok := true;
  }
}
