/**
 * The scan store: the JSON document `logs/scan_data.json` that maps a scan's
 * timestamp to its `frequency`, `ppm`, `gain` and `logs`, the Scans tab
 * labels built from it, and the lookups behind View Log and Repeat Scan.
 */
module Store {
  import opened Wrappers
  import opened Text
  import opened Labels

  /**
   * A JSON value as Python holds it after `json.load`: `None`, a string, or
   * anything else (a number, a boolean, a list, an object), known here only
   * by the text `str()` gives for it.
   */
  datatype Value = Null | Str(s: string) | Other(shown: string)

  /** The text an f-string puts in place of the value. */
  function Shown(v: Value): string
  {
    match v
    case Null => "None"
    case Str(s) => s
    case Other(t) => t
  }

  /** One stored scan: a JSON object. */
  type Entry = map<string, Value>

  /** The whole document: a Python dict, whose keys keep their insertion order. */
  type Document = seq<(string, Entry)>

  /** A dict never holds a key twice. */
  predicate Wf(d: Document)
  {
    forall i, j :: 0 <= i < j < |d| ==> d[i].0 != d[j].0
  }

  function Keys(d: Document): seq<string>
  {
    seq(|d|, i requires 0 <= i < |d| => d[i].0)
  }

  /** `d.get(k)` */
  function Get(d: Document, k: string): Option<Entry>
  {
    if d == [] then None
    else if d[0].0 == k then Some(d[0].1)
    else Get(d[1..], k)
  }

  /** `d[k] = v`: an existing key keeps its place, a new key goes last. */
  function Put(d: Document, k: string, v: Entry): (r: Document)
    ensures |r| == |d| || |r| == |d| + 1
    ensures exists i :: 0 <= i < |r| && r[i] == (k, v)
  {
    if d == [] then
      assert [(k, v)][0] == (k, v);
      [(k, v)]
    else if d[0].0 == k then
      assert ([(k, v)] + d[1..])[0] == (k, v);
      [(k, v)] + d[1..]
    else
      var rest := Put(d[1..], k, v);
      assert forall i :: 0 <= i < |rest| ==> ([d[0]] + rest)[i + 1] == rest[i];
      [d[0]] + rest
  }

  /** The document as a mapping, forgetting the order of its keys. */
  function AsMap(d: Document): map<string, Entry>
  {
    if d == [] then map[] else map[d[0].0 := d[0].1] + AsMap(d[1..])
  }

  /** The keys of the mapping are the keys of the document. */
  lemma {:induction false} AsMapKeys(d: Document)
    ensures AsMap(d).Keys == set i | 0 <= i < |d| :: d[i].0
  {
    if d != [] {
      AsMapKeys(d[1..]);
      var rest := set i | 0 <= i < |d[1..]| :: d[1..][i].0;
      var all := set i | 0 <= i < |d| :: d[i].0;
      assert all == {d[0].0} + rest by {
        forall x | x in all ensures x in {d[0].0} + rest {
          var i :| 0 <= i < |d| && d[i].0 == x;
          if i > 0 { assert d[1..][i - 1].0 == x; }
        }
        forall x | x in rest ensures x in all {
          var i :| 0 <= i < |d[1..]| && d[1..][i].0 == x;
          assert d[i + 1].0 == x;
        }
      }
    }
  }

  /** Looking a key up in the document agrees with looking it up in the mapping. */
  lemma {:induction false} GetAsMap(d: Document, k: string)
    requires Wf(d)
    ensures Get(d, k) == if k in AsMap(d) then Some(AsMap(d)[k]) else None
  {
    if d != [] {
      assert Wf(d[1..]);
      GetAsMap(d[1..], k);
      if d[0].0 == k {
        AsMapKeys(d[1..]);
        assert k !in AsMap(d[1..]);
      }
    }
  }

  /** After `d[k] = v`, `k` holds `v` and every other key holds what it held. */
  lemma {:induction false} PutGet(d: Document, k: string, v: Entry, other: string)
    ensures Get(Put(d, k, v), k) == Some(v)
    ensures other != k ==> Get(Put(d, k, v), other) == Get(d, other)
  {
    if d != [] && d[0].0 != k {
      PutGet(d[1..], k, v, other);
    }
  }

  /** The keys of a document with one more entry in front. */
  lemma KeysCons(e: (string, Entry), d: Document)
    ensures Keys([e] + d) == [e.0] + Keys(d)
  {
  }

  /** `d[k] = v` keeps the order of the keys and adds `k` last when it is new. */
  lemma {:induction false} PutKeys(d: Document, k: string, v: Entry)
    ensures Keys(Put(d, k, v)) == if k in Keys(d) then Keys(d) else Keys(d) + [k]
  {
    if d == [] {
      assert Keys([(k, v)]) == [k];
    } else {
      var rest := d[1..];
      assert d == [d[0]] + rest;
      KeysCons(d[0], rest);
      if d[0].0 == k {
        KeysCons((k, v), rest);
      } else {
        PutKeys(rest, k, v);
        KeysCons(d[0], Put(rest, k, v));
        assert k in Keys(d) <==> k in Keys(rest);
      }
    }
  }

  /** `d[k] = v` keeps the keys of a dict distinct. */
  lemma PutWf(d: Document, k: string, v: Entry)
    requires Wf(d)
    ensures Wf(Put(d, k, v))
  {
    var r := Put(d, k, v);
    PutKeys(d, k, v);
    assert forall i :: 0 <= i < |r| ==> r[i].0 == Keys(r)[i];
    assert forall i :: 0 <= i < |d| ==> d[i].0 == Keys(d)[i];
  }

  /** `d[k] = v` keeps a dict a dict, and as a mapping it is the old one with only `k` set. */
  lemma {:induction false} PutAsMap(d: Document, k: string, v: Entry)
    requires Wf(d)
    ensures Wf(Put(d, k, v))
    ensures AsMap(Put(d, k, v)) == AsMap(d)[k := v]
  {
    var r := Put(d, k, v);
    var m := AsMap(d)[k := v];
    PutWf(d, k, v);
    forall x ensures (x in AsMap(r)) == (x in m) && (x in AsMap(r) ==> AsMap(r)[x] == m[x]) {
      PutGet(d, k, v, x);
      GetAsMap(d, x);
      GetAsMap(r, x);
    }
  }

  /** `load_scan_data`: a missing file reads as the empty document. */
  function Load(file: Option<Document>): (d: Document)
    ensures file.None? ==> d == []
    ensures file.Some? ==> d == file.value
  {
    file.GetOr([])
  }

  /** The object `add_new_scan` stores for a scan. */
  function NewEntry(frequency: Value, ppm: Value, gain: Value, logs: string): (r: Entry)
    ensures r.Keys == {"frequency", "ppm", "gain", "logs"}
    ensures EntryLogs(r) == Str(logs) && FrequencyText(r) == Shown(frequency)
  {
    map["frequency" := frequency, "ppm" := ppm, "gain" := gain, "logs" := Str(logs)]
  }

  /** `data.get('frequency', 'Unknown')`, as the label shows it. */
  function FrequencyText(e: Entry): string
  {
    if "frequency" in e then Shown(e["frequency"]) else "Unknown"
  }

  /** The Scans tab after `populate_scans_tab`: one label per stored scan, in key order. */
  function ScanLabels(d: Document): (r: seq<string>)
    ensures |r| == |d|
  {
    seq(|d|, i requires 0 <= i < |d| => ScanLabel(d[i].0, FrequencyText(d[i].1)))
  }

  /** `e.get('logs', "No logs available.")` */
  function EntryLogs(e: Entry): Value
  {
    if "logs" in e then e["logs"] else Str("No logs available.")
  }

  /** `scan_data.get(t, {}).get('logs', "No logs available.")` */
  function LogsOf(d: Document, t: string): Value
  {
    EntryLogs(Get(d, t).GetOr(map[]))
  }

  /** What View Log shows for a selected label; `None` where the pattern does not match. */
  function LogsForLabel(text: string, d: Document): Option<Value>
  {
    match ExtractTimestamp(text)
    case None => None
    case Some(t) => Some(LogsOf(d, t))
  }

  /**
   * Selecting the i-th listed scan finds the i-th stored scan: its label
   * gives back its key, and View Log shows that scan's own logs.
   */
  lemma ListedScanSelectsItsEntry(d: Document, i: nat)
    requires Wf(d) && i < |d|
    requires WellFormedTimestamp(d[i].0)
    ensures ExtractTimestamp(ScanLabels(d)[i]) == Some(d[i].0)
    ensures Get(d, d[i].0) == Some(d[i].1)
    ensures LogsForLabel(ScanLabels(d)[i], d) ==
      Some(if "logs" in d[i].1 then d[i].1["logs"] else Str("No logs available."))
  {
    LabelRoundTrip(d[i].0, FrequencyText(d[i].1));
    GetFinds(d, i);
  }

  /** In a dict, looking up the key at position i finds the entry at position i. */
  lemma {:induction false} GetFinds(d: Document, i: nat)
    requires Wf(d) && i < |d|
    ensures Get(d, d[i].0) == Some(d[i].1)
  {
    if i > 0 {
      assert d[0].0 != d[i].0;
      assert Wf(d[1..]) && d[1..][i - 1] == d[i];
      GetFinds(d[1..], i - 1);
    }
  }

  /** `int(v)` or `float(v)`: the converted value, or `None` where it raises. */
  type Conversion = Value -> Option<Value>

  /** `conv(v) if v is not None else None` */
  function Convert(conv: Conversion, v: Value): Option<Value>
  {
    if v == Null then Some(Null) else conv(v)
  }

  /** What `extract_params_from_logs` does: raises on a missing key, or returns the three values. */
  datatype Extraction = MissingKey(key: string) | Extracted(frequency: Value, gain: Value, ppm: Value)

  /**
   * `extract_params_from_logs`: reads the three keys (a missing one raises),
   * converts the frequency with `int` and gain and ppm with `float` (a `None`
   * stays `None`), and gives three `None`s when any conversion raises.
   */
  function ExtractParams(e: Entry, toInt: Conversion, toFloat: Conversion): (r: Extraction)
    ensures r.MissingKey? <==> !("frequency" in e && "gain" in e && "ppm" in e)
    ensures r.MissingKey? ==> r.key !in e
    ensures r.Extracted? ==>
      var f, g, p := Convert(toInt, e["frequency"]), Convert(toFloat, e["gain"]), Convert(toFloat, e["ppm"]);
      if f.Some? && g.Some? && p.Some? then (r.frequency, r.gain, r.ppm) == (f.value, g.value, p.value)
      else r == Extracted(Null, Null, Null)
  {
    if "frequency" !in e then MissingKey("frequency")
    else if "gain" !in e then MissingKey("gain")
    else if "ppm" !in e then MissingKey("ppm")
    else
      var f, g, p := Convert(toInt, e["frequency"]), Convert(toFloat, e["gain"]), Convert(toFloat, e["ppm"]);
      if f.Some? && g.Some? && p.Some? then Extracted(f.value, g.value, p.value)
      else Extracted(Null, Null, Null)
  }

  /** A stored parameter replay can use: present, not null, and converted to a non-null value. */
  predicate Usable(e: Entry, key: string, conv: Conversion)
  {
    key in e && e[key] != Null && conv(e[key]).Some? && conv(e[key]).value != Null
  }

  /**
   * The parameters `repeat_scan` applies for a selected label: `None` where it
   * raises before changing anything (the pattern does not match, a key is
   * missing, a conversion fails, or a value is `None`). It goes ahead exactly
   * when all three stored parameters are usable, and then applies their
   * converted values.
   */
  function ReplayParams(text: string, d: Document, toInt: Conversion, toFloat: Conversion): (r: Option<(Value, Value, Value)>)
    ensures var t := ExtractTimestamp(text);
      var e := if t.Some? then Get(d, t.value).GetOr(map[]) else map[];
      && (r.Some? <==> t.Some? && Usable(e, "frequency", toInt) && Usable(e, "gain", toFloat) && Usable(e, "ppm", toFloat))
      && (r.Some? ==> r.value == (toInt(e["frequency"]).value, toFloat(e["gain"]).value, toFloat(e["ppm"]).value))
  {
    match ExtractTimestamp(text)
    case None => None
    case Some(t) =>
      match ExtractParams(Get(d, t).GetOr(map[]), toInt, toFloat)
      case MissingKey(_) => None
      case Extracted(f, g, p) =>
        if f == Null || g == Null || p == Null then None else Some((f, g, p))
  }
}
