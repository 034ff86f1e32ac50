/**
 * The canvas's value types: pixels, layers, blend modes, shift directions,
 * and the key/value pixel store shared by all collaborators.
 */
module Types {

  datatype Option<+T> = None | Some(value: T)

  /** A painted pixel; the canvas only ever reads its colour. */
  datatype Pixel = Pixel(color: string)

  /** The value written for an unpainted (cleared) cell. */
  const Transparent: Pixel := Pixel("transparent")

  /** The sixteen blend modes a layer may use. */
  datatype BlendMode =
    | Normal | Multiply | Darken | ColorBurn | Screen | Lighten | ColorDodge | Overlay
    | SoftLight | HardLight | Difference | Exclusion | Hue | Saturation | Color | Luminosity

  /** The CSS name under which a blend mode is stored. */
  function BlendModeName(b: BlendMode): string {
    match b
    case Normal => "normal"
    case Multiply => "multiply"
    case Darken => "darken"
    case ColorBurn => "color-burn"
    case Screen => "screen"
    case Lighten => "lighten"
    case ColorDodge => "color-dodge"
    case Overlay => "overlay"
    case SoftLight => "soft-light"
    case HardLight => "hard-light"
    case Difference => "difference"
    case Exclusion => "exclusion"
    case Hue => "hue"
    case Saturation => "saturation"
    case Color => "color"
    case Luminosity => "luminosity"
  }

  /** A layer's metadata as kept in the layer registry. */
  datatype Layer = Layer(id: int, opacity: real, blendMode: BlendMode)

  datatype Direction = Up | Down | Left | Right

  /**
   * A plain JavaScript object used as a dictionary: `keys` lists the keys in
   * enumeration order, `values` gives the value stored under each key.
   */
  datatype Store<V> = Store(keys: seq<string>, values: map<string, V>) {
    ghost predicate Valid() {
      && (forall i, j :: 0 <= i < j < |keys| ==> keys[i] != keys[j])
      && (forall k :: k in values <==> k in keys)
    }
  }

  /**
   * `store[key] = value`: an existing key keeps its place in the enumeration
   * order, a new key is enumerated last.
   */
  function Put<V>(s: Store<V>, key: string, value: V): (r: Store<V>)
    requires s.Valid()
    ensures r.Valid()
    ensures r.values == s.values[key := value]
    ensures key in s.values ==> r.keys == s.keys
    ensures key !in s.values ==> r.keys == s.keys + [key]
  {
    if key in s.values then Store(s.keys, s.values[key := value])
    else Store(s.keys + [key], s.values[key := value])
  }

  /** A store holds exactly as many entries as it enumerates keys. */
  lemma StoreSize<V>(s: Store<V>)
    requires s.Valid()
    ensures |s.values| == |s.keys|
  {
    assert s.values.Keys == KeySet(s.keys);
    DistinctKeys(s.keys);
  }

  ghost function KeySet(keys: seq<string>): set<string> {
    set k | k in keys
  }

  /** Distinct keys make a set of the same size. */
  lemma {:induction false} DistinctKeys(keys: seq<string>)
    requires forall i, j :: 0 <= i < j < |keys| ==> keys[i] != keys[j]
    ensures |KeySet(keys)| == |keys|
  {
    if |keys| > 0 {
      var init, last := keys[..|keys| - 1], keys[|keys| - 1];
      DistinctKeys(init);
      assert KeySet(keys) == KeySet(init) + {last};
      assert last !in KeySet(init);
    }
  }
}
