/** The device identifier: read from the key/value store under `device_id`
    and kept when it is non-blank after trimming; otherwise a freshly
    generated identifier (a parameter here) is stored and returned.

    The store here is the browser's key/value storage seen as a map. The
    storage layer's lists live in the same browser storage under their own
    keys (`office_plan_employees`, `office_plan_departments`,
    `office_plan_attendance`); `Storage` models those three keys as a record
    instead, so the two views never touch a common key, and `device_id` is
    not among the keys that `Storage.ResetData` removes. */
module Identity {
  import opened Strings

  type KeyValueStore = map<string, string>

  const DeviceIdKey := "device_id"

  /** A value is stored under the key and it is not blank once leading and
      trailing white space is trimmed away. */
  predicate HasUsableId(kv: KeyValueStore) {
    DeviceIdKey in kv && |Trim(kv[DeviceIdKey])| > 0
  }

  /** `getDeviceId`: get-or-create. */
  function GetDeviceId(kv: KeyValueStore, generated: string): (res: (string, KeyValueStore))
    ensures DeviceIdKey in res.1 && res.1[DeviceIdKey] == res.0
    ensures forall k :: k in kv && k != DeviceIdKey ==> k in res.1 && res.1[k] == kv[k]
    ensures res.1.Keys == kv.Keys + {DeviceIdKey}
    ensures HasUsableId(kv) ==> res == (kv[DeviceIdKey], kv)
    ensures !HasUsableId(kv) ==> res.0 == generated
  {
    if HasUsableId(kv) then (kv[DeviceIdKey], kv)
    else (generated, kv[DeviceIdKey := generated])
  }

  /** A stored identifier counts as present exactly when it has a
      character other than white space. */
  lemma UsableIffNotAllSpace(kv: KeyValueStore)
    ensures HasUsableId(kv) <==>
      DeviceIdKey in kv && exists i :: 0 <= i < |kv[DeviceIdKey]| && !IsJsSpace(kv[DeviceIdKey][i])
  {
  }

  /** The identifier is stable: a second call returns the first call's value
      and writes nothing, provided the generated value is not blank. */
  lemma SecondCallStable(kv: KeyValueStore, generated: string, generatedAgain: string)
    requires exists i :: 0 <= i < |generated| && !IsJsSpace(generated[i])
    ensures var (id, kv1) := GetDeviceId(kv, generated);
            GetDeviceId(kv1, generatedAgain) == (id, kv1)
  {
  }

  /** A blank generated value is stored but not kept: the next call replaces it. */
  lemma BlankGeneratedNotKept(kv: KeyValueStore, generatedAgain: string)
    requires !HasUsableId(kv)
    ensures var (_, kv1) := GetDeviceId(kv, " ");
            GetDeviceId(kv1, generatedAgain).0 == generatedAgain
  {
  }
}
