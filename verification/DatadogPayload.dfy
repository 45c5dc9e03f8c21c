/** From the bytes of a MessagePack payload, in either layout, to its traces. */
module DatadogPayload {
  import opened Wrappers
  import opened MessagePack
  import opened DecoderBudget
  import opened MessagePackDecoder
  import DictionaryTraces

  datatype PayloadError = Undecodable(error: DecodeError) | Unexpandable(reason: DictionaryTraces.ExpandError)

  /** The bytes are one item; in the indexed layout the item denotes the traces and the
      strings looked up fit the byte limit, in the other layout the item is the traces. */
  ghost predicate Carries(f: Frame, nodes: nat, traces: Value) {
    exists item :: Reads(f, nodes, item) && Yields(f, Meaning(item, f.indexed, 0, false), traces)
  }

  ghost predicate Yields(f: Frame, payload: Option<Value>, traces: Value) {
    payload.Some? &&
    if f.indexed then
      && (exists out :: DictionaryTraces.NamesTraces(payload.value, out, traces))
      && DictionaryTraces.PayloadCost(payload.value, f.valueSize) <= f.binaryBudget
    else payload.value == traces
  }

  lemma YieldsOne(f: Frame, payload: Option<Value>, a: Value, b: Value)
    requires Yields(f, payload, a) && Yields(f, payload, b)
    ensures a == b
  {
    if f.indexed {
      var x :| DictionaryTraces.NamesTraces(payload.value, x, a);
      var y :| DictionaryTraces.NamesTraces(payload.value, y, b);
      hide DictionaryTraces.DenotesPayload;
      DictionaryTraces.DenotesOne(payload.value, x, y);
    }
  }

  /** Decoding succeeds exactly when the bytes carry traces, and returns the only traces
      that they carry. */
  method DecodeTraces(f: Frame, nodes: nat) returns (r: Result<Value, PayloadError>)
    requires f.Sane()
    ensures r.Ok? <==> exists traces :: Carries(f, nodes, traces)
    ensures r.Ok? ==> Carries(f, nodes, r.value) && forall traces :: Carries(f, nodes, traces) ==> traces == r.value
  {
    hide Reads, Meaning, DictionaryTraces.DenotesPayload, DictionaryTraces.PayloadCost, DictionaryTraces.NamesTraces;
    var decoded, binaries, charged, w := DecodePayload(f, nodes);
    if decoded.Err? {
      return Err(Undecodable(decoded.error));
    }
    forall traces | Carries(f, nodes, traces)
      ensures Yields(f, Some(decoded.value), traces)
    {
    }
    if !f.indexed {
      r := Ok(decoded.value);
    } else {
      var expanded := DictionaryTraces.Expand(decoded.value, f.valueSize, f.binaryBudget);
      if expanded.Err? {
        if traces :| Carries(f, nodes, traces) {
          NamedAreDenoted(decoded.value, traces);
        }
        return Err(Unexpandable(expanded.error));
      }
      r := Ok(expanded.value);
    }
    assert Yields(f, Meaning(w, f.indexed, 0, false), r.value);
    assert Carries(f, nodes, r.value);
    forall traces | Carries(f, nodes, traces)
      ensures traces == r.value
    {
      YieldsOne(f, Some(decoded.value), traces, r.value);
    }
  }

  lemma NamedAreDenoted(payload: Value, traces: Value)
    ensures (exists out :: DictionaryTraces.NamesTraces(payload, out, traces)) ==>
            exists out :: DictionaryTraces.DenotesPayload(payload, out)
  {
  }
}
