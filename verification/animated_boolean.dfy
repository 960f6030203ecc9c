/** SVGOMAnimatedBoolean: a boolean attribute mirrored as a lazily read base
    value plus an optional animated value, kept in step with the element's
    attribute through mutation callbacks. */
module AnimatedBoolean {
  import opened Wrappers

  /** An attribute is named by its namespace URI and local name. */
  datatype AttrName = AttrName(ns: string, localName: string)

  /** Listener firings, in the order they happen. */
  datatype Event = BaseListenersFired | AnimListenersFired

  /** The three mutation callbacks an element delivers. */
  datatype Mutation = Added | Modified | Removed

  /** The DOMException an element raises when it refuses a write. */
  datatype DomError = NoModificationAllowed

  /** The fields of the attribute value object. */
  datatype AnimBool = AnimBool(
    name: AttrName,
    defaultValue: bool,
    valid: bool,
    baseVal: bool,
    animVal: bool,
    hasAnimVal: bool,
    changing: bool)

  /** The value object with the element's attributes and the listener log. */
  datatype State = State(v: AnimBool, attrs: map<AttrName, string>, log: seq<Event>)

  /** A getter's result: the state after the call and the value returned. */
  datatype Read = Read(s: State, value: bool)

  /** A setter's result: the state after the call and the exception, if any. */
  datatype Write = Write(s: State, error: Option<DomError>)

  /** The constructor, on an element whose attributes are `attrs`. */
  function New(name: AttrName, val: bool, attrs: map<AttrName, string>): (s: State)
    ensures s.v.name == name && s.v.defaultValue == val && s.attrs == attrs && s.log == []
    ensures Consistent(s) && !s.v.hasAnimVal
  {
    State(AnimBool(name, val, false, false, false, false, false), attrs, [])
  }

  /** The boolean an attribute denotes: the exact string "true" means true,
      anything else false, and an absent attribute the default. */
  function Denoted(s: State): bool {
    if s.v.name in s.attrs then s.attrs[s.v.name] == "true" else s.v.defaultValue
  }

  /** A valid cached base value agrees with the attribute. */
  predicate CacheSound(s: State) {
    s.v.valid ==> s.v.baseVal == Denoted(s)
  }

  /** Between calls the object is not in the middle of writing and its cache
      is sound. */
  predicate Consistent(s: State) {
    !s.v.changing && CacheSound(s)
  }

  /** String.valueOf(boolean). */
  function BoolToString(b: bool): (str: string)
    ensures str == "true" || str == "false"
    ensures (str == "true") == b
  {
    if b then "true" else "false"
  }

  /** update: reads the attribute into the base value and marks it valid. */
  function Update(s: State): (t: State)
    ensures t.v.valid && CacheSound(t)
    ensures t.attrs == s.attrs && t.log == s.log
    ensures t.v == s.v.(valid := true, baseVal := t.v.baseVal)
  {
    var b := if s.v.name !in s.attrs then s.v.defaultValue else s.attrs[s.v.name] == "true";
    s.(v := s.v.(baseVal := b, valid := true))
  }

  /** getBaseVal: reads the attribute only when the cache is invalid. */
  function GetBaseVal(s: State): (r: Read)
    ensures s.v.valid ==> r == Read(s, s.v.baseVal)
    ensures r.s.attrs == s.attrs && r.s.log == s.log && r.s.v.valid && r.value == r.s.v.baseVal
    ensures r.s.v == s.v.(valid := true, baseVal := r.value)
    ensures CacheSound(s) ==> r.value == Denoted(s)
    ensures Consistent(s) ==> Consistent(r.s)
  {
    var t := if !s.v.valid then Update(s) else s;
    Read(t, t.v.baseVal)
  }

  /** A second read returns the same value and changes nothing. */
  lemma GetBaseValSettles(s: State)
    ensures GetBaseVal(GetBaseVal(s).s) == GetBaseVal(s)
  {
  }

  /** attrAdded, attrModified and attrRemoved: a callback during the
      object's own write keeps the cache, any other invalidates it; the base
      listeners always fire, the animated ones only without an animated
      value. */
  function OnAttrChange(s: State, m: Mutation): (t: State)
    ensures t.v.valid == (s.v.valid && s.v.changing)
    ensures t.v == s.v.(valid := t.v.valid)
    ensures t.attrs == s.attrs
    ensures t.log == s.log + [BaseListenersFired] + (if s.v.hasAnimVal then [] else [AnimListenersFired])
  {
    var v := if !s.v.changing then s.v.(valid := false) else s.v;
    var fired := s.log + [BaseListenersFired];
    State(v, s.attrs, if !v.hasAnimVal then fired + [AnimListenersFired] else fired)
  }

  /** Element.setAttributeNS when the element accepts it: the store changes,
      then the matching callback reaches this object if the attribute is
      its own. */
  function SetAttribute(s: State, name: AttrName, value: string): (t: State)
    ensures t.attrs == s.attrs[name := value]
  {
    var m := if name in s.attrs then Modified else Added;
    var stored := s.(attrs := s.attrs[name := value]);
    if name == s.v.name then OnAttrChange(stored, m) else stored
  }

  /** Element.removeAttributeNS. */
  function RemoveAttribute(s: State, name: AttrName): (t: State)
    ensures t.attrs == s.attrs - {name}
  {
    if name !in s.attrs then s
    else
      var stored := s.(attrs := s.attrs - {name});
      if name == s.v.name then OnAttrChange(stored, Removed) else stored
  }

  /** Someone else writing or removing an attribute keeps the object
      consistent, and its next base-value read sees the new attribute. */
  lemma ExternalChangeIsSeen(s: State, name: AttrName, value: string)
    requires Consistent(s)
    ensures Consistent(SetAttribute(s, name, value))
    ensures GetBaseVal(SetAttribute(s, name, value)).value == Denoted(SetAttribute(s, name, value))
    ensures Consistent(RemoveAttribute(s, name))
    ensures GetBaseVal(RemoveAttribute(s, name)).value == Denoted(RemoveAttribute(s, name))
  {
  }

  /** setBaseVal as written: the cache takes the new value first, then the
      attribute is written with `changing` set, and `changing` is cleared
      whether or not the element accepted the write (`writable`). */
  function SetBaseVal(s: State, b: bool, writable: bool): (w: Write)
    ensures w.s.v.baseVal == b && w.s.v.valid && !w.s.v.changing
    ensures GetBaseVal(w.s).value == b
    ensures w.error.None? <==> writable
    ensures w.s.v == s.v.(baseVal := b, valid := true, changing := false)
    ensures writable ==> w.s.attrs == s.attrs[s.v.name := BoolToString(b)] && Denoted(w.s) == b
    ensures writable ==> w.s.log == s.log + [BaseListenersFired] + (if s.v.hasAnimVal then [] else [AnimListenersFired])
    ensures writable && Consistent(s) ==> Consistent(w.s)
    ensures !writable ==> w.s.attrs == s.attrs && w.s.log == s.log
  {
    var s1 := s.(v := s.v.(baseVal := b, valid := true, changing := true));
    var s2 := if writable then SetAttribute(s1, s.v.name, BoolToString(b)) else s1;
    Write(s2.(v := s2.v.(changing := false)), if writable then None else Some(NoModificationAllowed))
  }

  /** When the element refuses the write, the as-written setter leaves a
      cache that disagrees with the attribute. */
  lemma RefusedSetBaseValDesynchronises()
    ensures var s := New(AttrName("", "externalResourcesRequired"), false,
                         map[AttrName("", "externalResourcesRequired") := "false"]);
            var w := SetBaseVal(s, true, false);
            Consistent(s) && !CacheSound(w.s)
            && GetBaseVal(w.s).value && !Denoted(w.s)
  {
  }

  /** setBaseVal as evidently intended: a refused write leaves the object as
      it was, so the cache never disagrees with the attribute. */
  function SetBaseValIntended(s: State, b: bool, writable: bool): (w: Write)
    ensures w.error.None? <==> writable
    ensures writable ==> w == SetBaseVal(s, b, writable)
    ensures !writable ==> w.s == s
    ensures Consistent(s) ==> Consistent(w.s)
  {
    if writable then SetBaseVal(s, b, writable) else Write(s, Some(NoModificationAllowed))
  }

  /** Writing the base value and reading it back round-trips through the
      attribute text. */
  lemma SetBaseValRoundTrip(s: State, b: bool)
    requires Consistent(s)
    ensures var t := SetBaseVal(s, b, true).s;
            t.attrs[s.v.name] == BoolToString(b)
            && GetBaseVal(t).value == b
            && Update(t).v.baseVal == b
  {
  }

  /** getAnimVal: the animated value while there is one, else the base
      value read as getBaseVal reads it. */
  function GetAnimVal(s: State): (r: Read)
    ensures s.v.hasAnimVal ==> r == Read(s, s.v.animVal)
    ensures !s.v.hasAnimVal ==> r == GetBaseVal(s)
    ensures Consistent(s) ==> Consistent(r.s)
  {
    if s.v.hasAnimVal then Read(s, s.v.animVal)
    else GetBaseVal(s)
  }

  /** setAnimatedValue. */
  function SetAnimatedValue(s: State, val: bool): (t: State)
    ensures GetAnimVal(t).value == val
    ensures t.v == s.v.(hasAnimVal := true, animVal := val)
    ensures t.attrs == s.attrs && t.log == s.log + [AnimListenersFired]
    ensures Consistent(s) ==> Consistent(t)
  {
    var t := s.(v := s.v.(hasAnimVal := true, animVal := val));
    t.(log := t.log + [AnimListenersFired])
  }

  /** updateAnimatedValue: a value installs it, none removes the animated
      value so reads fall back to the base value. */
  function UpdateAnimatedValue(s: State, val: Option<bool>): (t: State)
    ensures t.v.hasAnimVal <==> val.Some?
    ensures val.Some? ==> GetAnimVal(t).value == val.value
    ensures val.None? ==> GetAnimVal(t) == GetBaseVal(t)
    ensures t.v == s.v.(hasAnimVal := t.v.hasAnimVal, animVal := t.v.animVal)
    ensures val.None? ==> t.v.animVal == s.v.animVal
    ensures t.attrs == s.attrs && t.log == s.log + [AnimListenersFired]
    ensures Consistent(s) ==> Consistent(t)
  {
    var v := match val
      case None => s.v.(hasAnimVal := false)
      case Some(x) => s.v.(hasAnimVal := true, animVal := x);
    State(v, s.attrs, s.log + [AnimListenersFired])
  }

  /** While an animated value is set, neither the attribute nor the base
      value affects what getAnimVal returns. */
  lemma AnimatedValueOverridesBase(s: State, val: bool, name: AttrName, text: string, b: bool)
    ensures var t := SetAnimatedValue(s, val);
            GetAnimVal(SetAttribute(t, name, text)).value == val
            && GetAnimVal(SetBaseVal(t, b, true).s).value == val
  {
  }
}
