/** Go's `url.Values`: each query key maps to the list of values given for it. */
module UrlValues {

  type Values = map<string, seq<string>>

  /** url.Values.Get: the first value of `key`; "" when the key is absent or has no value. */
  function Get(params: Values, key: string): (r: string)
    ensures r != "" ==> key in params && |params[key]| > 0 && r == params[key][0]
    ensures key !in params ==> r == ""
    ensures key in params && |params[key]| > 0 ==> r == params[key][0]
  {
    if key in params && |params[key]| > 0 then params[key][0] else ""
  }
}
