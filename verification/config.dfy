/** The service records read from the configuration file, and lookup by name. */
module Config {
  import opened Optional

  /**
   One entry of the "services" list. A key missing from the entry reads as
   None; a missing "ports_to_knock" reads as the empty list, as `get(..., [])` does.
   */
  datatype Service = Service(
    name: Option<string>,
    target: Option<string>,
    ports: seq<string>,
    test: Option<string>,
    delayMs: Option<int>)

  const DEFAULT_DELAY_MS := 300

  /** `service.get("delay_in_milliseconds", 300)`. */
  function DelayOf(s: Service): (d: int)
    ensures s.delayMs.Some? ==> d == s.delayMs.value
    ensures s.delayMs.None? ==> d == DEFAULT_DELAY_MS
  {
    OrElse(s.delayMs, DEFAULT_DELAY_MS)
  }

  /** Python truthiness of an optional string: present and not empty. */
  predicate Truthy(o: Option<string>) {
    o.Some? && o.value != ""
  }

  /**
   `next((s for s in services if s.get("service_name") == name), None)`: the
   first entry carrying that name.
   */
  function Find(services: seq<Service>, name: string): (r: Option<Service>)
    ensures r.None? <==> forall i | 0 <= i < |services| :: services[i].name != Some(name)
    ensures r.Some? ==> exists i | 0 <= i < |services| ::
      && services[i] == r.value
      && services[i].name == Some(name)
      && forall j | 0 <= j < i :: services[j].name != Some(name)
  {
    if |services| == 0 then None
    else if services[0].name == Some(name) then Some(services[0])
    else
      var r := Find(services[1..], name);
      assert forall i | 1 <= i < |services| :: services[i] == services[1..][i - 1];
      r
  }
}
