# Bridget bridge registry — a Dafny model

Bridget is the BlueOS service that keeps "bridges": links that forward a serial
port to a UDP endpoint. This project models the bookkeeping in
`core/services/bridget/bridget.py`:

- the value type `BridgeSpec` (serial path, baud rate, IP address, UDP port).
  This covers its port bound, its string form `serial_path:baud//ip:udp_port`,
  its hash, and its conversion from the persisted `BridgeSettingsSpecV1`
  (`bridge_spec.dfy`, module `BridgeSpecs`);
- the registry `Bridget` (`bridget.dfy`, class `Bridget.Bridget`), which has:
  - the table `_bridges`, modelled as the map `bridges` plus the key sequence
    `order`, which is the dictionary's insertion order and so its iteration
    order;
  - the persisted list `settings.specs`, modelled as `specs`;
  - `save()`, which writes the snapshot `stored` and counts the write in
    `saves`;
  - the calls to `Bridge.stop()`, logged in `stopped`.

  The class models the start-up replay, `get_bridges`, `add_bridge`,
  `remove_bridge` and `stop`.

Supporting modules:
- `decimal.dfy`: decimal text of integers.
- `lists.dfy`: Python's `list.index` and `list.remove`, written as `IndexOf`
  and `RemoveFirst`.
- `wrappers.dfy`: `Option`, `Result` and `Outcome`.

Exceptions become `Outcome`/`Result` values. `Bridget.Error` names each
exception the registry raises:

| Error | Python exception |
|---|---|
| `AlreadyExists` | `RuntimeError("Bridge already exist.")` |
| `DoesNotExist` | `RuntimeError("Bridge doesn't exist.")` |
| `NotInSettings` | the `ValueError` from `list.remove` |
| `OpenFailed` | the foreign `Bridge` constructor failed |
| `ChangedSizeDuringIteration` | the dictionary iterator's `RuntimeError` |

The running bridge is an opaque handle, `Bridge(link, handle)`. Whether the
foreign constructor succeeds is an input:
- `AddBridge` takes it as an `Option<nat>` (`None` means it raised);
- the constructor takes it as a function `open` from spec to outcome.

The registry invariant `Valid()` holds after every operation. It states:
- each key is listed once in `order`;
- the keys of `order` are exactly the keys of `bridges`;
- every bridge was opened with its own key;
- every registered link has its entry in the persisted list.

`RemoveBridge` relies on the last point: for a registered link, `list.remove`
can never raise.

## Model

| member | source | states |
|---|---|---|
| `BridgeSpecs.NewBridgeSpec` | core/services/bridget/bridget.py:14-20 | Building a spec succeeds exactly when the UDP port is in 1024..65535. It then carries the given fields; otherwise it fails with the port's validation error. |
| `BridgeSpecs.FromSettingsSpec` | core/services/bridget/bridget.py:28-35 | `from_settings_spec` copies serial path, baud rate, IP and port one to one. It succeeds exactly when the port is in range. |
| `BridgeSpecs.ToSettingsSpec` | core/services/bridget/bridget.py:75 | The persisted entry of a spec converts back to that same spec. |
| `BridgeSpecs.SettingsRoundTrip` | core/services/bridget/bridget.py:29-35 | A persisted entry that converts to a spec comes back unchanged when that spec is converted to an entry. |
| `BridgeSpecs.ToSettingsSpecInjective` | core/services/bridget/bridget.py:75-76 | Distinct specs have distinct persisted entries, so the membership test on the list looks at one link only. |
| `BridgeSpecs.ToString` | core/services/bridget/bridget.py:22-23 | `__str__`: the text `serial_path:baud//ip:udp_port`. It starts with the serial path and a ':', and its length is the four fields' texts plus the four separator characters. |
| `BridgeSpecs.PortOfStringForm` | core/services/bridget/bridget.py:22-23 | The string form ends with ':' and the port's decimal digits, so the port can be read back from it. |
| `BridgeSpecs.SameStringFormSamePort` | core/services/bridget/bridget.py:22-23 | Two specs with the same string form have the same port. |
| `BridgeSpecs.EqualStringFormsHashEqually` | core/services/bridget/bridget.py:25-26 | `__hash__`: `Hash` is `hash(str(self))`, the string hash applied to the string form. Specs with equal string forms hash equally, and so do equal specs, so the hash agrees with the equality a dictionary key needs. |
| `BridgeSpecs.StringFormNotInjective` | core/services/bridget/bridget.py:22-26 | Some distinct specs share a string form, and so a hash, because ':' and '//' can occur in the path and the address. Dictionary keys are still told apart by field equality. |
| `Decimal.NatToDecimal` | core/services/bridget/bridget.py:23 | The text of a number in the string form is Python's `str(int)`: a non-empty run of decimal digits, with one digit exactly for numbers below 10, and a leading '0' only for zero itself. |
| `Decimal.ParseNatToDecimal` | core/services/bridget/bridget.py:23 | Reading back the decimal text of a number gives the number. |
| `Lists.IndexOf` | core/services/bridget/bridget.py:82 | The index found holds the element, and no earlier index does. |
| `Lists.RemoveFirst` | core/services/bridget/bridget.py:82 | On a list that holds the element it is `list.remove`, and the list loses exactly one element. On any other list, where Python raises `ValueError`, it returns the list unchanged. |
| `Lists.RemoveFirstShape` | core/services/bridget/bridget.py:82 | `list.remove` deletes the first occurrence: the elements before it keep their places and those after it move down by one. |
| `Lists.RemoveFirstMultiset` | core/services/bridget/bridget.py:82 | `list.remove` takes away exactly one copy of the element, and the list shrinks by one. |
| `Lists.RemoveFirstKeepsOthers` | core/services/bridget/bridget.py:81-82 | Removing one element keeps every other element. |
| `Lists.RemoveFirstDistinct` | core/services/bridget/bridget.py:81 | In a list without repeats, removal leaves no copy of the element and creates no repeats. |
| `Lists.RemoveEach` | core/services/bridget/bridget.py:88-91 | The persisted list after `stop` removes each link's entry in turn. Each removal takes away at most one element, so the list loses at most as many elements as there are removals. |
| `Lists.RemoveEachMultiset` | core/services/bridget/bridget.py:88-91 | Removing each of several elements in turn takes away exactly their multiset. |
| `Bridget.ReplayKeys` | core/services/bridget/bridget.py:45-50 | The keys the start-up loop registers, in order, when each persisted entry is passed to `add_bridge` and failures are skipped. There are no more keys than entries, and every key registered opened successfully. |
| `Bridget.ReplayKeysSpec` | core/services/bridget/bridget.py:45-50 | The start-up replay registers each link at most once. A link is registered if and only if some persisted entry validates to it and it opens. |
| `Bridget.SnapshotStep` | core/services/bridget/bridget.py:90-91 | One step over a snapshot of the keys extends the done prefix by one key and leaves the rest of the keys. |
| `Bridget.Bridget.constructor` | core/services/bridget/bridget.py:41-50 | After loading and replay, the registry is valid and its keys are the replay's keys in order. Each bridge holds the handle its opening gave. The persisted list is unchanged and has not been saved. |
| `Bridget.Bridget.GetBridges` | core/services/bridget/bridget.py:61-62 | Returns every registered link exactly once, in insertion order. |
| `Bridget.Bridget.AddBridge` | core/services/bridget/bridget.py:64-78 | A link already registered gives "Bridge already exist." and nothing changes. A failed open changes nothing. Otherwise only that link's entry is added to the table. Its settings entry is appended and saved exactly when the list lacks it, so a list without duplicates stays so. |
| `Bridget.Bridget.RemoveBridge` | core/services/bridget/bridget.py:80-86 | The link leaves the table and no other entry changes. One copy of its entry leaves the list and the list is saved; only then is a missing link reported as "Bridge doesn't exist.". A link with no entry makes `list.remove` raise before any save, and nothing changes. |
| `Bridget.Bridget.Stop` | core/services/bridget/bridget.py:88-91 | As written: an empty registry is unchanged. Otherwise only the first registered link is removed, stopped and unpersisted, and the call then fails with the dictionary iterator's error. |
| `Bridget.Bridget.StopAll` | core/services/bridget/bridget.py:88-91 | As intended: the table ends empty and every registered bridge is stopped, in order. One entry per link leaves the persisted list, with one save per link. |
| `Bridget.StopLeavesSecondBridge` | core/services/bridget/bridget.py:88-91 | With two bridges registered, `stop` as written fails and leaves the second link registered. |

## Left out

- `available_serial_ports`: an HTTP request to a local service, plus JSON decoding. This is network I/O.
- The foreign `Bridge` and `SysFS` constructors, and `Bridge.stop()`. They are modelled as an outcome given by the caller and a log of stopped handles. Exceptions raised by `Bridge.stop()` are not modelled.
- `Manager.load()` and `Manager.save()` file I/O. Loading is the constructor's `loaded` argument. Saving copies the list into `stored`, and a failing save is not modelled.
- `BridgeSettingsSpecV1.from_spec` is not part of this model. It is taken to copy the four fields, which makes it the inverse of `from_settings_spec`.
- `Baudrate` enum validation is not modelled. The baud rate is a natural number, and its text in the string form is taken to be its decimal value, as Python formats an integer enum member.
- Python's string hash is keyed per process. It is passed in as a function from string to integer.
- Bridget.Bridget.constructor: opening is a function of the link, so a link that appears twice in the persisted list and failed to open once fails both times.
- Lists.RemoveFirst: the function is total. It does not raise on a list without the element, where `list.remove` raises `ValueError`. That exception is modelled at the one call site: `RemoveBridge` checks membership first and returns `NotInSettings` before any change.
- Logging and the `__del__` finalizer, whose timing depends on the garbage collector. `__del__` only calls `stop`.

## Findings

| source | as written | input that shows it | evidently intended | confidence | as-written member | corrected member |
|---|---|---|---|---|---|---|
| core/services/bridget/bridget.py:88-91 | `stop` iterates `self._bridges` while `remove_bridge` deletes from it. The dictionary iterator raises "dictionary changed size during iteration" on the step after the first deletion. | A registry with two registered links `a` and `b`: `stop()` removes `a`, raises, and `b` stays registered. | Remove every registered link, by iterating over a snapshot of the keys (`list(self._bridges)`). | not executed; high: the language only says such a loop "may raise", but CPython's dict iterator compares the stored size with the current one before every step, so it raises on the step after the first deletion | `Bridget.Bridget.Stop` | `Bridget.Bridget.StopAll` |
