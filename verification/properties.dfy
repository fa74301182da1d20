/** HubSpot object properties: a map from property name to value, where a
    property without a value is simply absent. */
module Properties {
  import opened Wrappers

  type Props = map<string, string>

  /** `props.get(key)`. */
  function Value(props: Props, key: string): (r: Option<string>)
    ensures r.Some? <==> key in props
    ensures r.Some? ==> r.value == props[key]
  {
    if key in props then Some(props[key]) else None
  }
}
