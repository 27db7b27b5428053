/** Optional values, standing in for the `null`/`undefined` results of the page's
    browser queries and regular-expression matches. */
module Options {

  datatype Option<+T> = None | Some(value: T)

  /** JavaScript truthiness of a nullable string: `null` and `""` are both falsy. */
  predicate Truthy(o: Option<string>) {
    o.Some? && o.value != ""
  }

  /** The two falsy strings are the only ones; a non-empty string such as "0" is
      truthy even where the number 0 would not be. */
  lemma FalsyValues(o: Option<string>)
    ensures !Truthy(o) <==> o == None || o == Some("")
    ensures Truthy(Some("0"))
  {
  }
}
