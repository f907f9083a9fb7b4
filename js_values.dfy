/** The few JavaScript value notions the booking code relies on: optional values
    (a column that may hold NULL), request-body fields that may be `undefined`,
    `null` or a string, truthiness, `x || null`, `x || ''` and `x ?? y`. */
module JsValues {

  datatype Option<+T> = None | Some(value: T) {
    /** `opt || fallback` style read-back of an optional value. */
    function GetOr(default: T): T {
      match this
      case Some(v) => v
      case None => default
    }
  }

  /** A field of a request body or of a `changes` object. */
  datatype Field = Undefined | Null | Str(s: string)

  /** JavaScript truthiness of a field: only a non-empty string is truthy. */
  predicate Truthy(f: Field) {
    f.Str? && f.s != ""
  }

  /** `f || null`, read as an optional string. */
  function OrNull(f: Field): Option<string> {
    if Truthy(f) then Some(f.s) else None
  }

  /** `f || ''`. */
  function OrEmpty(f: Field): string {
    if Truthy(f) then f.s else ""
  }

  /** `f ?? fallback`: only `undefined` and `null` fall back; an empty string does not. */
  function Coalesce(f: Field, fallback: string): string {
    if f.Str? then f.s else fallback
  }

  /** `id || ''` for an id column that may be NULL. */
  function IdText(id: Option<string>): string {
    id.GetOr("")
  }

  // ---------------------------------------------------------------------
  // Sets built by adding values in list order (`new Set()` filled with `set.add`)
  // ---------------------------------------------------------------------

  /** The values present in a sequence of optional values, added one by
      one as `set.add` does. */
  function Collect(opts: seq<Option<string>>): set<string> {
    if opts == [] then {}
    else
      var last := opts[|opts| - 1];
      Collect(opts[..|opts| - 1]) + if last.Some? then {last.value} else {}
  }

  /** A value is in the set exactly when some position holds it. */
  lemma {:induction false} CollectMembers(opts: seq<Option<string>>, t: string)
    ensures t in Collect(opts) <==> exists i :: 0 <= i < |opts| && opts[i] == Some(t)
    decreases |opts|
  {
    if opts != [] {
      var n := |opts| - 1;
      var init := opts[..n];
      CollectMembers(init, t);
      if t in Collect(init) {
        var i :| 0 <= i < |init| && init[i] == Some(t);
        assert opts[i] == init[i];
      }
      if exists i :: 0 <= i < |opts| && opts[i] == Some(t) {
        var i :| 0 <= i < |opts| && opts[i] == Some(t);
        if i < n {
          assert init[i] == opts[i];
        }
      }
    }
  }

  /** One more position adds its value, if it holds one. */
  lemma CollectStep(opts: seq<Option<string>>, k: int)
    requires 0 <= k < |opts|
    ensures Collect(opts[..k + 1]) == Collect(opts[..k]) + if opts[k].Some? then {opts[k].value} else {}
  {
    assert opts[..k + 1][..k] == opts[..k];
  }
}
