/**
 * What `json.loads` hands back for a brace span, and the `dict.get` lookups
 * with defaults that the pipeline applies to it.
 *
 * The decoder itself is not modelled: callers receive it as a function
 * `Decoder` from the candidate text to `Some(object)` or `None` (a decode
 * error). A decoded value is one of the shapes the pipeline reads: a number,
 * a string, a list of strings, a nested object (kept as its keys in order,
 * which is what iterating it yields), or anything else (`Other`).
 */
module Records {
  import opened Wrappers
  import opened PyText

  datatype Field = Num(value: real) | Str(text: string) | StrList(items: seq<string>) | Dict(keys: seq<string>) | Other

  /** A decoded JSON object. */
  type Object = map<string, Field>

  /** `json.loads` on a candidate text: `None` when it raises. */
  type Decoder = string -> Option<Object>

  /** The requirements extracted from the job description. */
  datatype Requirements = Requirements(requiredSkills: seq<string>, minimumExp: real)

  /** Python truthiness of a resume record: `None` and `{}` are falsy. */
  predicate IsFalsy(data: Option<Object>) {
    data.None? || data.value == map[]
  }

  /** Iterating a Python string yields its characters as one-character strings. */
  function Chars(s: string): (cs: seq<string>)
    ensures |cs| == |s|
    ensures forall k :: 0 <= k < |s| ==> cs[k] == [s[k]]
  {
    seq(|s|, k requires 0 <= k < |s| => [s[k]])
  }

  /**
   * `obj.get(key, [])` as the list of strings a comprehension iterates over:
   * a list yields its items, a string its characters, an object its keys.
   */
  function StringsAt(obj: Object, key: string): (xs: seq<string>)
    ensures key !in obj ==> xs == []
    ensures key in obj && obj[key].StrList? ==> xs == obj[key].items
    ensures key in obj && obj[key].Str? ==> |xs| == |obj[key].text| && forall k :: 0 <= k < |xs| ==> xs[k] == [obj[key].text[k]]
    ensures key in obj && obj[key].Dict? ==> xs == obj[key].keys
  {
    if key !in obj then []
    else match obj[key]
      case StrList(items) => items
      case Str(text) => Chars(text)
      case Dict(keys) => keys
      case _ => []
  }

  /** `obj.get(key, 0)` as a number. */
  function NumberAt(obj: Object, key: string): (n: real)
    ensures key !in obj ==> n == 0.0
    ensures key in obj && obj[key].Num? ==> n == obj[key].value
  {
    if key in obj && obj[key].Num? then obj[key].value else 0.0
  }

  /** `[s.lower() for s in xs]`. */
  function LowerAll(xs: seq<string>): (ys: seq<string>)
    ensures |ys| == |xs|
    ensures forall k :: 0 <= k < |xs| ==> ys[k] == Lower(xs[k])
  {
    seq(|xs|, k requires 0 <= k < |xs| => Lower(xs[k]))
  }

  /** Every lower-cased string is already lower case. */
  lemma LowerAllLowered(xs: seq<string>)
    ensures forall k :: 0 <= k < |LowerAll(xs)| ==> Lower(LowerAll(xs)[k]) == LowerAll(xs)[k]
  {
    forall k | 0 <= k < |xs| ensures Lower(LowerAll(xs)[k]) == LowerAll(xs)[k] {
      LowerIdempotent(xs[k]);
    }
  }
}
