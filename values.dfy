/** Ruby values that the handler reads from parsed JSON or from the chat
    framework: a String or nil. */
module Values {

  datatype Option<+T> = None | Some(value: T)

  /** A Ruby String or nil. */
  type Nilable = Option<string>

  /** `v.to_s`, which is also what `"#{ v }"` interpolates: nil becomes "". */
  function ToS(v: Nilable): (r: string)
    ensures v.None? ==> r == ""
    ensures v.Some? ==> r == v.value
  {
    match v
    case None => ""
    case Some(s) => s
  }

  /** `h[k]` on a Ruby Hash: nil when the key is missing. */
  function Lookup(h: map<string, string>, k: string): (r: Nilable)
    ensures r.Some? <==> k in h
    ensures k in h ==> r.value == h[k]
  {
    if k in h then Some(h[k]) else None
  }
}
