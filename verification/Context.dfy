/** The per-request context: the path parameters and request keys (context.go). */
module Contexts {
  import opened RouteTable

  class Context {
    var request: nat
    var params: seq<Capture>
    var keys: map<string, nat>

    constructor (request: nat)
      ensures this.request == request && params == [] && keys == map[]
    {
      this.request := request;
      params := [];
      keys := map[];
    }

    /** Makes a pooled context ready for another request. */
    method Reset(request: nat)
      modifies this
      ensures this.request == request && params == [] && keys == map[]
    {
      this.request := request;
      params := [];
      keys := map[];
    }

    method AddParam(key: string, value: string)
      modifies this`params
      ensures params == old(params) + [Capture(key, value)]
    {
      params := params + [Capture(key, value)];
    }

    /** The value of the first parameter of that name, "" if there is none. */
    method PathParam(name: string) returns (value: string)
      ensures value == ParamValue(params, name)
    {
      var i := 0;
      while i < |params|
        invariant 0 <= i <= |params|
        invariant ParamValue(params, name) == ParamValue(params[i..], name)
      {
        if params[i].key == name {
          return params[i].value;
        }
        i := i + 1;
      }
      return "";
    }
  }

  function ParamValue(params: seq<Capture>, name: string): string {
    if params == [] then ""
    else if params[0].key == name then params[0].value
    else ParamValue(params[1..], name)
  }

  /** With distinct names every capture can be read back under its name. */
  lemma {:induction false} ParamValueIsCapture(params: seq<Capture>, i: nat)
    requires i < |params|
    requires forall j :: 0 <= j < i ==> params[j].key != params[i].key
    ensures ParamValue(params, params[i].key) == params[i].value
  {
    if i > 0 {
      ParamValueIsCapture(params[1..], i - 1);
    }
  }

  /** A name that nothing was captured under has the empty value. */
  lemma {:induction false} ParamValueMissing(params: seq<Capture>, name: string)
    requires forall i :: 0 <= i < |params| ==> params[i].key != name
    ensures ParamValue(params, name) == ""
  {
    if params != [] {
      ParamValueMissing(params[1..], name);
    }
  }
}
