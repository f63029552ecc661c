/**
 * Filtering recognition results (`process_file` in
 * speech_recognition_validation/extract_final_texts.py). The input is a JSON
 * array of recognition entries. Each entry yields at most one alternative:
 * the refined one when it can be read, the plain final one otherwise. The
 * alternatives are collected in a dictionary keyed by their `end_time_ms`,
 * where a refined entry always overwrites and any other entry never does.
 * The dictionary's items are then sorted by the integer value of their key,
 * and written to `<stem>_filtered<ext>`. JSON values are a datatype; the
 * Python exceptions that escape are results.
 */
module RecognitionResults {
  import opened Wrappers
  import opened Strings
  import opened Numerals
  import opened Sequences

  /** A value `json.load` produces. */
  datatype Json =
    | JNull
    | JBool(b: bool)
    | JInt(i: int)
    | JFloat(r: real)
    | JStr(s: string)
    | JArr(items: seq<Json>)
    | JObj(fields: map<string, Json>)

  /** One element of the input array: a JSON object. */
  type Entry = map<string, Json>

  /** The exceptions that abort the processing of a file. */
  datatype Fault = TypeError | AttributeError | ValueError

  /** The outcome of a subscript: the value, a `KeyError` or `IndexError`
      (which the source catches), or another exception (which it does not). */
  datatype Probe = Got(value: Json) | Missing | Raised(fault: Fault)

  // ---------------------------------------------------------------------------
  // Reading an alternative

  /** `v[key]` for a string key: only an object can be subscripted by it. */
  function Field(v: Json, key: string): (p: Probe)
    ensures p.Got? <==> v.JObj? && key in v.fields
    ensures p.Missing? <==> v.JObj? && key !in v.fields
  {
    match v
    case JObj(m) => if key in m then Got(m[key]) else Missing
    case _ => Raised(TypeError)
  }

  /** `v[0]`: the first element of a list or character of a string; an object
      has no key `0`. */
  function First(v: Json): (p: Probe)
    ensures v.JArr? ==> (p.Got? <==> v.items != [])
    ensures v.JArr? && v.items != [] ==> p == Got(v.items[0])
  {
    match v
    case JArr(a) => if a == [] then Missing else Got(a[0])
    case JStr(s) => if s == [] then Missing else Got(JStr([s[0]]))
    case JObj(_) => Missing
    case _ => Raised(TypeError)
  }

  /** `v[k0][k1]...` for a path of string keys; the first failure stops it. */
  function Path(v: Json, keys: seq<string>): Probe
    decreases |keys|
  {
    if keys == [] then Got(v)
    else
      match Field(v, keys[0])
      case Got(w) => Path(w, keys[1..])
      case Missing => Missing
      case Raised(f) => Raised(f)
  }

  const RefinedPath: seq<string> := ["final_refinement", "normalized_text", "alternatives"]
  const FinalPath: seq<string> := ["final", "alternatives"]

  /** `entry[k0]...[kn][0]`. */
  function AltAt(entry: Entry, keys: seq<string>): Probe {
    match Path(JObj(entry), keys)
    case Got(w) => First(w)
    case Missing => Missing
    case Raised(f) => Raised(f)
  }

  /** The `try` around a subscript: a caught `KeyError`/`IndexError` and a
      JSON `null` both leave `alt` as `None`. */
  function Caught(p: Probe): (r: Result<Option<Json>, Fault>)
    ensures r.Err? <==> p.Raised?
    ensures r.Ok? && r.value.Some? ==> p == Got(r.value.value) && r.value.value != JNull
  {
    match p
    case Got(v) => if v == JNull then Ok(None) else Ok(Some(v))
    case Missing => Ok(None)
    case Raised(f) => Err(f)
  }

  predicate IsRefined(entry: Entry) {
    "final_refinement" in entry
  }

  /** The alternative an entry offers: the refined one when the entry has a
      refinement and it can be read, otherwise the final one if the entry has
      a `final` key. */
  function ChooseAlt(entry: Entry): (r: Result<Option<Json>, Fault>)
    ensures var refined := Caught(AltAt(entry, RefinedPath));
      IsRefined(entry) && refined.Ok? && refined.value.Some? ==> r == refined
    ensures (!IsRefined(entry) || Caught(AltAt(entry, RefinedPath)) == Ok(None)) ==>
      r == if "final" in entry then Caught(AltAt(entry, FinalPath)) else Ok(None)
    ensures IsRefined(entry) && AltAt(entry, RefinedPath).Raised? ==> r.Err?
  {
    var refined := if IsRefined(entry) then Caught(AltAt(entry, RefinedPath)) else Ok(None);
    if refined.Err? then refined
    else if refined.value.None? && "final" in entry then Caught(AltAt(entry, FinalPath))
    else refined
  }

  /** The refined alternative
      `entry["final_refinement"]["normalized_text"]["alternatives"][0]` is
      chosen whenever every step of that path is present and it is not
      `null`, whatever `final` holds. */
  lemma RefinedAltChosen(entry: Entry, alts: seq<Json>)
    requires "final_refinement" in entry
    requires var fr := entry["final_refinement"];
      fr.JObj? && "normalized_text" in fr.fields
      && var nt := fr.fields["normalized_text"];
      nt.JObj? && "alternatives" in nt.fields && nt.fields["alternatives"] == JArr(alts)
    requires alts != [] && alts[0] != JNull
    ensures ChooseAlt(entry) == Ok(Some(alts[0]))
  {
    RefinedListAt(entry, alts);
  }

  /** When the refined alternative is absent (no refinement, or a refined
      list that is empty or starts with `null`), the final alternative
      `entry["final"]["alternatives"][0]` is chosen, a `null` there reading
      as none. */
  lemma FinalAltChosen(entry: Entry, refined: seq<Json>, alts: seq<Json>)
    requires "final_refinement" in entry ==>
      var fr := entry["final_refinement"];
      fr.JObj? && "normalized_text" in fr.fields
      && var nt := fr.fields["normalized_text"];
      nt.JObj? && "alternatives" in nt.fields && nt.fields["alternatives"] == JArr(refined)
      && (refined == [] || refined[0] == JNull)
    requires "final" in entry && entry["final"].JObj? && "alternatives" in entry["final"].fields
    requires entry["final"].fields["alternatives"] == JArr(alts) && alts != []
    ensures ChooseAlt(entry) == Ok(if alts[0] == JNull then None else Some(alts[0]))
  {
    if IsRefined(entry) {
      RefinedListAt(entry, refined);
    }
    var fin := entry["final"];
    assert Path(fin, ["alternatives"]) == Got(JArr(alts)) by {
      assert ["alternatives"][1..] == [];
    }
    assert Path(JObj(entry), FinalPath) == Got(JArr(alts)) by {
      assert FinalPath[1..] == ["alternatives"];
    }
  }

  /** Following the refined path through objects that hold each key reaches
      the list at its end. */
  lemma RefinedListAt(entry: Entry, alts: seq<Json>)
    requires "final_refinement" in entry
    requires var fr := entry["final_refinement"];
      fr.JObj? && "normalized_text" in fr.fields
      && var nt := fr.fields["normalized_text"];
      nt.JObj? && "alternatives" in nt.fields && nt.fields["alternatives"] == JArr(alts)
    ensures AltAt(entry, RefinedPath) == First(JArr(alts))
  {
    var fr := entry["final_refinement"];
    var nt := fr.fields["normalized_text"];
    assert Path(nt, ["alternatives"]) == Got(JArr(alts)) by {
      assert ["alternatives"][1..] == [];
    }
    assert Path(fr, ["normalized_text", "alternatives"]) == Got(JArr(alts)) by {
      assert ["normalized_text", "alternatives"][1..] == ["alternatives"];
    }
    assert Path(JObj(entry), RefinedPath) == Got(JArr(alts)) by {
      assert RefinedPath[1..] == ["normalized_text", "alternatives"];
    }
  }

  /** A refinement without `normalized_text` counts as no refinement at all:
      the `KeyError` is caught and the final alternative is read instead. */
  lemma MissingRefinedKeyFallsBack(entry: Entry)
    requires "final_refinement" in entry && entry["final_refinement"].JObj?
    requires "normalized_text" !in entry["final_refinement"].fields
    ensures ChooseAlt(entry) == ChooseAlt(entry - {"final_refinement"})
  {
    var rest := entry - {"final_refinement"};
    assert Path(JObj(entry), RefinedPath) == Missing by {
      assert RefinedPath[1..] == ["normalized_text", "alternatives"];
    }
    assert ("final" in rest) == ("final" in entry);
    if "final" in entry {
      assert rest["final"] == entry["final"];
      assert AltAt(rest, FinalPath) == AltAt(entry, FinalPath);
    }
  }

  /** A refinement that is not an object cannot be subscripted by a string:
      the `TypeError` is not caught, whatever `final` holds. */
  lemma RefinementNotObjectRaises(entry: Entry)
    requires "final_refinement" in entry && !entry["final_refinement"].JObj?
    ensures ChooseAlt(entry) == Err(TypeError)
  {
    assert Path(JObj(entry), RefinedPath) == Raised(TypeError) by {
      assert RefinedPath[1..] == ["normalized_text", "alternatives"];
    }
  }

  /** Python truthiness of a value. */
  predicate Truthy(v: Json) {
    match v
    case JNull => false
    case JBool(b) => b
    case JInt(i) => i != 0
    case JFloat(r) => r != 0.0
    case JStr(s) => s != []
    case JArr(a) => a != []
    case JObj(m) => m != map[]
  }

  /** Lists and objects cannot be dictionary keys. */
  predicate Hashable(v: Json) {
    !v.JArr? && !v.JObj?
  }

  /** `d.get(key)`: a missing key reads as `None`, written as `null`. */
  function Get(m: map<string, Json>, key: string): (v: Json)
    ensures key !in m ==> v == JNull
  {
    if key in m then m[key] else JNull
  }

  /** One output object: `{'text': ..., 'time_ms': ...}`. */
  datatype Item = Item(text: Json, time: Json)

  /** What an entry contributes to the dictionary: nothing when its
      alternative is missing or falsy, otherwise the item built from the
      alternative's `text` and `end_time_ms`. A truthy alternative that is not
      an object has no `get`, and a list or object time cannot be a key. */
  function Contribution(entry: Entry): (r: Result<Option<Item>, Fault>)
    ensures ChooseAlt(entry).Err? ==> r.Err?
    ensures r.Ok? && r.value.Some? ==>
      ChooseAlt(entry).Ok? && ChooseAlt(entry).value.Some? && Truthy(ChooseAlt(entry).value.value)
      && ChooseAlt(entry).value.value.JObj?
      && r.value.value == Item(Get(ChooseAlt(entry).value.value.fields, "text"),
                               Get(ChooseAlt(entry).value.value.fields, "end_time_ms"))
    ensures ChooseAlt(entry).Ok? && (ChooseAlt(entry).value.None? || !Truthy(ChooseAlt(entry).value.value))
      ==> r == Ok(None)
  {
    match ChooseAlt(entry)
    case Err(f) => Err(f)
    case Ok(alt) =>
      if alt.None? || !Truthy(alt.value) then Ok(None)
      else if !alt.value.JObj? then Err(AttributeError)
      else
        var t := Get(alt.value.fields, "end_time_ms");
        if !Hashable(t) then Err(TypeError)
        else Ok(Some(Item(Get(alt.value.fields, "text"), t)))
  }

  // ---------------------------------------------------------------------------
  // The dictionary

  /** The dictionary `filtered_map`, as its values in insertion order; each
      value holds its own key as `time`. */
  type Dict = seq<Item>

  predicate HasTime(d: Dict, t: Json) {
    exists i :: 0 <= i < |d| && d[i].time == t
  }

  predicate UniqueTimes(d: Dict) {
    forall i, j :: 0 <= i < j < |d| ==> d[i].time != d[j].time
  }

  /** `filtered_map[t] = item`: an existing key keeps its place and takes the
      new value; a new key goes at the end. */
  function Put(d: Dict, item: Item): (r: Dict)
    requires UniqueTimes(d)
    ensures UniqueTimes(r)
    ensures HasTime(d, item.time) ==> |r| == |d|
    ensures !HasTime(d, item.time) ==> r == d + [item]
    ensures forall i :: 0 <= i < |d| ==> r[i] == if d[i].time == item.time then item else d[i]
    decreases |d|
  {
    if d == [] then [item]
    else if d[0].time == item.time then [item] + d[1..]
    else [d[0]] + Put(d[1..], item)
  }

  /** What the loop needs of an entry: whether it carries a refinement, and
      what it contributes. */
  datatype Proposal = Proposal(refined: bool, offer: Result<Option<Item>, Fault>)

  function ProposalOf(entry: Entry): Proposal {
    Proposal(IsRefined(entry), Contribution(entry))
  }

  function Proposals(data: seq<Entry>): (ps: seq<Proposal>)
    ensures |ps| == |data|
    ensures forall k :: 0 <= k < |data| ==> ps[k] == ProposalOf(data[k])
  {
    seq(|data|, k requires 0 <= k < |data| => ProposalOf(data[k]))
  }

  /** One pass of the loop: a refined entry always writes its item; any other
      entry writes only a new key. */
  function Step(d: Dict, p: Proposal): (r: Result<Dict, Fault>)
    requires UniqueTimes(d)
    ensures r.Ok? ==> UniqueTimes(r.value)
    ensures r.Err? <==> p.offer.Err?
  {
    match p.offer
    case Err(f) => Err(f)
    case Ok(None) => Ok(d)
    case Ok(Some(item)) =>
      if HasTime(d, item.time) && !p.refined then Ok(d) else Ok(Put(d, item))
  }

  /** The dictionary after the loop has read the proposals, or the first exception. */
  function Fold(ps: seq<Proposal>): (r: Result<Dict, Fault>)
    ensures r.Ok? ==> UniqueTimes(r.value)
  {
    if ps == [] then Ok([])
    else
      match Fold(ps[..|ps| - 1])
      case Err(f) => Err(f)
      case Ok(d) => Step(d, ps[|ps| - 1])
  }

  function Dedupe(data: seq<Entry>): Result<Dict, Fault> {
    Fold(Proposals(data))
  }

  /** The loop of `process_file` that fills `filtered_map`. */
  method BuildMap(data: seq<Entry>) returns (r: Result<Dict, Fault>)
    ensures r == Dedupe(data)
  {
    var d: Dict := [];
    ghost var ps := Proposals(data);
    for i := 0 to |data|
      invariant Fold(ps[..i]) == Ok(d)
    {
      assert ps[..i + 1][..i] == ps[..i];
      var c := Contribution(data[i]);
      if c.Err? {
        FoldStopsAt(ps, i + 1);
        return Err(c.error);
      }
      if c.value.Some? {
        var item := c.value.value;
        if HasTime(d, item.time) && !IsRefined(data[i]) {
          continue;
        }
        d := Put(d, item);
      }
    }
    assert ps[..|data|] == ps;
    return Ok(d);
  }

  /** Once an exception escapes, later entries change nothing. */
  lemma {:induction false} FoldStopsAt(ps: seq<Proposal>, i: nat)
    requires i <= |ps| && Fold(ps[..i]).Err?
    ensures Fold(ps) == Fold(ps[..i])
    decreases |ps| - i
  {
    if i < |ps| {
      var next := ps[..i + 1];
      assert next[..i] == ps[..i];
      FoldStopsAt(ps, i + 1);
    } else {
      assert ps[..i] == ps;
    }
  }

  /** The first exception of the loop is the first entry that raises. */
  lemma {:induction false} FoldErr(ps: seq<Proposal>) returns (k: nat)
    requires Fold(ps).Err?
    ensures k < |ps| && ps[k].offer.Err?
    ensures Fold(ps) == Err(ps[k].offer.error)
    ensures forall j :: 0 <= j < k ==> ps[j].offer.Ok?
  {
    var n := |ps| - 1;
    var front := ps[..n];
    if Fold(front).Err? {
      k := FoldErr(front);
      assert front[k] == ps[k];
      forall j | 0 <= j < k
        ensures ps[j].offer.Ok?
      {
        assert front[j] == ps[j];
      }
    } else {
      k := n;
      forall j | 0 <= j < k
        ensures ps[j].offer.Ok?
      {
        FoldOkAt(front, j);
        assert front[j] == ps[j];
      }
    }
  }

  /** When the loop finishes, no entry raised. */
  lemma {:induction false} FoldOkAt(ps: seq<Proposal>, j: nat)
    requires Fold(ps).Ok? && j < |ps|
    ensures ps[j].offer.Ok?
  {
    var n := |ps| - 1;
    if j < n {
      FoldOkAt(ps[..n], j);
      assert ps[..n][j] == ps[j];
    }
  }

  // ---------------------------------------------------------------------------
  // What the dictionary holds for one time

  /** The proposal contributes an item whose time is `t`. */
  predicate Offers(p: Proposal, t: Json) {
    p.offer.Ok? && p.offer.value.Some? && p.offer.value.value.time == t
  }

  /** `filtered_map.get(t)`. */
  function Lookup(d: Dict, t: Json): (r: Option<Item>)
    ensures r.Some? ==> r.value.time == t && r.value in d
    ensures r.None? <==> !HasTime(d, t)
    decreases |d|
  {
    if d == [] then None
    else if d[0].time == t then Some(d[0])
    else
      assert HasTime(d, t) <==> HasTime(d[1..], t) by {
        if HasTime(d, t) {
          var i :| 0 <= i < |d| && d[i].time == t;
          assert d[1..][i - 1] == d[i];
        }
        if HasTime(d[1..], t) {
          var i :| 0 <= i < |d[1..]| && d[1..][i].time == t;
          assert d[i + 1] == d[1..][i];
        }
      }
      Lookup(d[1..], t)
  }

  lemma {:induction false} PutLookup(d: Dict, item: Item, t: Json)
    requires UniqueTimes(d)
    ensures Lookup(Put(d, item), t) == if t == item.time then Some(item) else Lookup(d, t)
    decreases |d|
  {
    if d != [] && d[0].time != item.time {
      assert UniqueTimes(d[1..]) by {
        forall i, j | 0 <= i < j < |d[1..]|
          ensures d[1..][i].time != d[1..][j].time
        {
          assert d[1..][i] == d[i + 1] && d[1..][j] == d[j + 1];
        }
      }
      PutLookup(d[1..], item, t);
      assert Put(d, item)[1..] == Put(d[1..], item);
    }
  }

  /** One pass, seen from one time: the entry's item is written when it offers
      that time and is refined or the time is new. */
  lemma StepLookup(d: Dict, p: Proposal, t: Json)
    requires UniqueTimes(d) && Step(d, p).Ok?
    ensures Lookup(Step(d, p).value, t)
      == if Offers(p, t) && (p.refined || Lookup(d, t).None?) then p.offer.value
         else Lookup(d, t)
  {
    if p.offer.value.Some? {
      var item := p.offer.value.value;
      if !(HasTime(d, item.time) && !p.refined) {
        PutLookup(d, item, t);
      }
    }
  }

  /** A time is in the dictionary exactly when some entry offered it. */
  lemma {:induction false} FoldHasTime(ps: seq<Proposal>, t: Json)
    requires Fold(ps).Ok?
    ensures Lookup(Fold(ps).value, t).Some? <==> exists k :: 0 <= k < |ps| && Offers(ps[k], t)
  {
    if ps != [] {
      var n := |ps| - 1;
      var front := ps[..n];
      FoldHasTime(front, t);
      StepLookup(Fold(front).value, ps[n], t);
      if exists k :: 0 <= k < |ps| && Offers(ps[k], t) {
        var k :| 0 <= k < |ps| && Offers(ps[k], t);
        if k < n {
          assert front[k] == ps[k];
        }
      }
      if exists k :: 0 <= k < n && Offers(front[k], t) {
        var k :| 0 <= k < n && Offers(front[k], t);
        assert front[k] == ps[k];
      }
    }
  }

  /** A refined entry always replaces: the last refined entry offering a time
      holds it at the end, whatever came before or after it. */
  lemma {:induction false} RefinedWins(ps: seq<Proposal>, k: nat, t: Json)
    requires Fold(ps).Ok? && k < |ps|
    requires Offers(ps[k], t) && ps[k].refined
    requires forall j :: k < j < |ps| ==> !(Offers(ps[j], t) && ps[j].refined)
    ensures Lookup(Fold(ps).value, t) == ps[k].offer.value
  {
    var n := |ps| - 1;
    var front := ps[..n];
    FoldLast(ps);
    var d := Fold(front).value;
    if k == n {
      StepTakes(d, ps[n], t);
    } else {
      assert front[k] == ps[k];
      forall j | k < j < |front|
        ensures !(Offers(front[j], t) && front[j].refined)
      {
        assert front[j] == ps[j];
      }
      RefinedWins(front, k, t);
      StepKeeps(d, ps[n], t);
    }
  }

  /** A refined entry offering a time takes it. */
  lemma StepTakes(d: Dict, p: Proposal, t: Json)
    requires UniqueTimes(d) && Step(d, p).Ok? && Offers(p, t) && p.refined
    ensures Lookup(Step(d, p).value, t) == p.offer.value
  {
    StepLookup(d, p, t);
  }

  /** A time already held is only taken over by a refined entry. */
  lemma StepKeeps(d: Dict, p: Proposal, t: Json)
    requires UniqueTimes(d) && Step(d, p).Ok? && Lookup(d, t).Some? && !(Offers(p, t) && p.refined)
    ensures Lookup(Step(d, p).value, t) == Lookup(d, t)
  {
    StepLookup(d, p, t);
  }

  /** A successful fold is one more step on the fold of all but the last
      proposal. */
  lemma FoldLast(ps: seq<Proposal>)
    requires ps != [] && Fold(ps).Ok?
    ensures Fold(ps[..|ps| - 1]).Ok?
    ensures Fold(ps) == Step(Fold(ps[..|ps| - 1]).value, ps[|ps| - 1])
  {
  }

  /** Without any refined entry for a time, the first entry offering it holds
      it: other entries never overwrite. */
  lemma {:induction false} FirstWins(ps: seq<Proposal>, k: nat, t: Json)
    requires Fold(ps).Ok? && k < |ps|
    requires Offers(ps[k], t)
    requires forall j :: 0 <= j < k ==> !Offers(ps[j], t)
    requires forall j :: 0 <= j < |ps| ==> !(Offers(ps[j], t) && ps[j].refined)
    ensures Lookup(Fold(ps).value, t) == ps[k].offer.value
  {
    var n := |ps| - 1;
    var front := ps[..n];
    FoldLast(ps);
    var d := Fold(front).value;
    if k < n {
      assert front[k] == ps[k];
      forall j | 0 <= j < |front|
        ensures !(Offers(front[j], t) && front[j].refined)
      {
        assert front[j] == ps[j];
      }
      forall j | 0 <= j < k
        ensures !Offers(front[j], t)
      {
        assert front[j] == ps[j];
      }
      FirstWins(front, k, t);
      StepKeeps(d, ps[n], t);
    } else {
      FoldHasTime(front, t);
      forall j | 0 <= j < n
        ensures !Offers(front[j], t)
      {
        assert front[j] == ps[j];
      }
      StepTakesNew(d, ps[n], t);
    }
  }

  /** An entry offering a time not yet held takes it. */
  lemma StepTakesNew(d: Dict, p: Proposal, t: Json)
    requires UniqueTimes(d) && Step(d, p).Ok? && Offers(p, t) && Lookup(d, t).None?
    ensures Lookup(Step(d, p).value, t) == p.offer.value
  {
    StepLookup(d, p, t);
  }

  // ---------------------------------------------------------------------------
  // Sorting by time

  /** `int(t)` on a dictionary key. */
  function IntOf(t: Json): (r: Result<int, Fault>)
    ensures t.JFloat? && t.r >= 0.0 ==> r.Ok? && r.value as real <= t.r < r.value as real + 1.0
    ensures t.JFloat? && t.r < 0.0 ==> r.Ok? && r.value as real - 1.0 < t.r <= r.value as real
    ensures t.JNull? || t.JArr? || t.JObj? ==> r == Err(TypeError)
  {
    match t
    case JInt(i) => Ok(i)
    case JBool(b) => Ok(if b then 1 else 0)
    case JFloat(r) => Ok(if r >= 0.0 then r.Floor else -((-r).Floor))
    case JStr(s) => IntOfText(s)
    case _ => Err(TypeError)
  }

  /** `int(s)` on a string: surrounding whitespace, an optional sign, then
      decimal digits. */
  function IntOfText(s: string): (r: Result<int, Fault>)
    ensures s != [] && AllDigits(s) ==> r == Ok(DigitsValue(s))
  {
    DigitsStripped(s);
    SignedDigits(Strip(s))
  }

  /** A stripped text read as an optional sign followed by decimal digits. */
  function SignedDigits(w: string): (r: Result<int, Fault>)
    ensures w != [] && AllDigits(w) ==> r == Ok(DigitsValue(w))
    ensures |w| >= 2 && w[0] == '-' && AllDigits(w[1..]) ==> r == Ok(-(DigitsValue(w[1..]) as int))
  {
    var negative := w != [] && w[0] == '-';
    var digits := if w != [] && (w[0] == '+' || w[0] == '-') then w[1..] else w;
    if digits == [] || !AllDigits(digits) then Err(ValueError)
    else
      var v: int := DigitsValue(digits);
      Ok(if negative then -v else v)
  }

  /** Digits carry no surrounding whitespace. */
  lemma DigitsStripped(s: string)
    ensures s != [] && AllDigits(s) ==> Strip(s) == s
  {
    if s != [] && AllDigits(s) {
      StripOfStripped(s);
    }
  }

  /** Every decimal numeral reads back as its value, signed or not. */
  lemma IntOfTextRoundTrip(n: int)
    ensures IntOfText(if n < 0 then "-" + NatToString(-n) else NatToString(n)) == Ok(n)
  {
    if n < 0 {
      var s := "-" + NatToString(-n);
      assert s[1..] == NatToString(-n);
      IntOfNegated(s);
    }
  }

  /** A minus sign followed by digits reads as the negated value. */
  lemma IntOfNegated(s: string)
    requires |s| >= 2 && s[0] == '-' && AllDigits(s[1..])
    ensures IntOfText(s) == Ok(-(DigitsValue(s[1..]) as int))
  {
    assert IntOfText(s) == SignedDigits(s) by {
      assert IsDigit(s[1..][|s| - 2]);
      StripOfStripped(s);
      IntOfStripped(s);
    }
  }

  lemma IntOfStripped(s: string)
    requires Strip(s) == s
    ensures IntOfText(s) == SignedDigits(s)
  {
  }

  /** The sort keys of the items, in order, or the first `int()` failure. */
  function Keys(d: Dict): (r: Result<seq<int>, Fault>)
    ensures r.Ok? ==> |r.value| == |d| && forall i :: 0 <= i < |d| ==> IntOf(d[i].time) == Ok(r.value[i])
    ensures r.Err? ==> exists i :: 0 <= i < |d| && IntOf(d[i].time) == Err(r.error)
                                   && forall j :: 0 <= j < i ==> IntOf(d[j].time).Ok?
  {
    match ReadEach(KeyOf, d)
    case Err((i, f)) =>
      assert IntOf(d[i].time) == Err(f) && forall j :: 0 <= j < i ==> KeyOf(d[j]).Ok?;
      Err(f)
    case Ok(ks) => Ok(ks)
  }

  /** The sort key of one item. */
  function KeyOf(item: Item): Result<int, Fault> {
    IntOf(item.time)
  }

  /** An item with its sort key. */
  type Keyed = (int, Item)

  predicate SortedByKey(s: seq<Keyed>) {
    forall i, j :: 0 <= i < j < |s| ==> s[i].0 <= s[j].0
  }

  predicate AtLeast(s: seq<Keyed>, b: int) {
    forall i :: 0 <= i < |s| ==> s[i].0 >= b
  }

  /** Places `x` after every element whose key is not greater than its own. */
  function Insert(x: Keyed, s: seq<Keyed>): (r: seq<Keyed>)
    ensures |r| == |s| + 1
    decreases |s|
  {
    if s == [] then [x]
    else if x.0 < s[0].0 then [x] + s
    else [s[0]] + Insert(x, s[1..])
  }

  lemma {:induction false} InsertPermutes(x: Keyed, s: seq<Keyed>)
    ensures multiset(Insert(x, s)) == multiset(s) + multiset{x}
    decreases |s|
  {
    if s != [] && x.0 >= s[0].0 {
      InsertPermutes(x, s[1..]);
      assert s == [s[0]] + s[1..];
    }
  }

  lemma {:induction false} InsertAtLeast(x: Keyed, s: seq<Keyed>, b: int)
    requires AtLeast(s, b) && x.0 >= b
    ensures AtLeast(Insert(x, s), b)
    decreases |s|
  {
    if s != [] && x.0 >= s[0].0 {
      InsertAtLeast(x, s[1..], b);
    }
  }

  lemma {:induction false} InsertSorted(x: Keyed, s: seq<Keyed>)
    requires SortedByKey(s)
    ensures SortedByKey(Insert(x, s))
    decreases |s|
  {
    if s != [] && x.0 >= s[0].0 {
      InsertSorted(x, s[1..]);
      InsertAtLeast(x, s[1..], s[0].0);
    }
  }

  /** `sorted(..., key=...)`, which is stable: each element is inserted after
      the ones before it with an equal key. */
  function SortByKey(s: seq<Keyed>): (r: seq<Keyed>)
    ensures |r| == |s|
    ensures SortedByKey(r)
    ensures multiset(r) == multiset(s)
  {
    if s == [] then []
    else
      var n := |s| - 1;
      var front := SortByKey(s[..n]);
      InsertLast(s, front);
      Insert(s[n], front)
  }

  /** Inserting the last element into the sorted front sorts the whole. */
  lemma InsertLast(s: seq<Keyed>, front: seq<Keyed>)
    requires s != [] && SortedByKey(front) && multiset(front) == multiset(s[..|s| - 1])
    ensures SortedByKey(Insert(s[|s| - 1], front))
    ensures multiset(Insert(s[|s| - 1], front)) == multiset(s)
  {
    var n := |s| - 1;
    InsertSorted(s[n], front);
    InsertPermutes(s[n], front);
    assert s == s[..n] + [s[n]];
  }

  /** The elements with key `k`, in order. */
  function WithKey(s: seq<Keyed>, k: int): seq<Keyed> {
    if s == [] then []
    else (if s[0].0 == k then [s[0]] else []) + WithKey(s[1..], k)
  }

  lemma {:induction false} WithKeyAppend(a: seq<Keyed>, b: seq<Keyed>, k: int)
    ensures WithKey(a + b, k) == WithKey(a, k) + WithKey(b, k)
  {
    if a != [] {
      assert (a + b)[1..] == a[1..] + b;
      WithKeyAppend(a[1..], b, k);
    } else {
      assert a + b == b;
    }
  }

  lemma {:induction false} WithKeyInsert(x: Keyed, s: seq<Keyed>, k: int)
    requires SortedByKey(s)
    ensures WithKey(Insert(x, s), k) == WithKey(s, k) + (if x.0 == k then [x] else [])
    decreases |s|
  {
    if s == [] {
    } else if x.0 < s[0].0 {
      if x.0 == k {
        WithKeyNone(s, k);
      }
    } else {
      WithKeyInsert(x, s[1..], k);
    }
  }

  /** A sorted sequence whose keys all exceed `k` has none equal to it. */
  lemma {:induction false} WithKeyNone(s: seq<Keyed>, k: int)
    requires SortedByKey(s) && (s == [] || s[0].0 > k)
    ensures WithKey(s, k) == []
  {
    if s != [] {
      WithKeyNone(s[1..], k);
    }
  }

  lemma SortByKeySnoc(s: seq<Keyed>)
    requires s != []
    ensures SortedByKey(SortByKey(s[..|s| - 1]))
    ensures SortByKey(s) == Insert(s[|s| - 1], SortByKey(s[..|s| - 1]))
  {
  }

  lemma WithKeyOne(x: Keyed, k: int)
    ensures WithKey([x], k) == if x.0 == k then [x] else []
  {
    assert [x][1..] == [];
  }

  /** The sort is stable: the elements sharing a key keep their input order. */
  lemma {:induction false} SortByKeyStable(s: seq<Keyed>, k: int)
    ensures WithKey(SortByKey(s), k) == WithKey(s, k)
  {
    if s != [] {
      var n := |s| - 1;
      var front := s[..n];
      SortByKeyStable(front, k);
      SortByKeySnoc(s);
      WithKeyInsert(s[n], SortByKey(front), k);
      assert WithKey(s, k) == WithKey(front, k) + WithKey([s[n]], k) by {
        assert s == front + [s[n]];
        WithKeyAppend(front, [s[n]], k);
      }
      WithKeyOne(s[n], k);
    }
  }

  // ---------------------------------------------------------------------------
  // The output file

  /** `os.path.basename`: the text after the last `/`. */
  function Basename(path: string): (base: string)
    ensures '/' !in base
  {
    path[LastIndexOf(path, '/') + 1..]
  }

  predicate OnlyDots(s: string) {
    forall i :: 0 <= i < |s| ==> s[i] == '.'
  }

  /** `os.path.splitext` on a base name: the extension starts at the last dot,
      unless only dots precede it. */
  function SplitExt(base: string): (r: (string, string))
    ensures r.0 + r.1 == base
    ensures r.1 == [] || (r.1[0] == '.' && '.' !in r.1[1..])
    ensures r.1 != [] <==> exists i :: 0 <= i < |base| && base[i] == '.' && !OnlyDots(base[..i])
    ensures r.1 != [] ==> !OnlyDots(r.0)
  {
    var dot := LastIndexOf(base, '.');
    if dot >= 0 && !OnlyDots(base[..dot]) then
      var ext := base[dot..];
      assert ext[0] == '.' && '.' !in ext[1..] by {
        assert ext[1..] == base[dot + 1..];
      }
      assert base[..dot] + ext == base;
      (base[..dot], ext)
    else
      assert forall i :: 0 <= i < |base| && base[i] == '.' ==> OnlyDots(base[..i]) by {
        if dot >= 0 {
          assert forall j :: dot < j < |base| ==> base[j] == base[dot + 1..][j - dot - 1];
          assert forall i :: 0 <= i <= dot ==> base[..i] == base[..dot][..i];
        }
      }
      (base, "")
  }

  /** `<name>_filtered<ext>`. */
  function OutputName(path: string): string {
    var (name, ext) := SplitExt(Basename(path));
    name + "_filtered" + ext
  }

  lemma BasenameAfterSlash(dir: string, base: string)
    requires '/' !in base
    ensures Basename(dir + "/" + base) == base
  {
    assert dir + "/" + base == dir + ['/'] + base;
    LastIndexOfAfter(dir, '/', base);
  }

  /** A name whose stem is more than dots splits at its last dot, however
      many dots the stem itself holds. */
  lemma SplitExtAtDot(stem: string, ext: string)
    requires !OnlyDots(stem) && '.' !in ext
    ensures SplitExt(stem + "." + ext) == (stem, "." + ext)
  {
    var base := stem + "." + ext;
    assert base == stem + ['.'] + ext;
    LastIndexOfAfter(stem, '.', ext);
    assert base[..|stem|] == stem;
    assert base[|stem|..] == "." + ext;
  }

  /** A file name keeps its extension after the `_filtered` mark, in whichever
      directory it sits. */
  lemma OutputNameKeepsExtension(dir: string, stem: string, ext: string)
    requires '/' !in stem && !OnlyDots(stem)
    requires '/' !in ext && '.' !in ext
    ensures OutputName(dir + "/" + stem + "." + ext) == stem + "_filtered" + "." + ext
  {
    var base := stem + "." + ext;
    assert dir + "/" + stem + "." + ext == dir + "/" + base;
    assert '/' !in base by {
      assert base == stem + ['.'] + ext;
    }
    BasenameAfterSlash(dir, base);
    SplitExtAtDot(stem, ext);
  }

  /** The processed file: its output name and its list of objects. */
  datatype Output = Output(name: string, items: seq<Item>)

  function Zip(ks: seq<int>, d: Dict): (r: seq<Keyed>)
    requires |ks| == |d|
    ensures |r| == |d|
  {
    seq(|d|, i requires 0 <= i < |d| => (ks[i], d[i]))
  }

  function Values(s: seq<Keyed>): (r: seq<Item>)
    ensures |r| == |s|
  {
    seq(|s|, i requires 0 <= i < |s| => s[i].1)
  }

  /** `[item for _, item in sorted(filtered_map.items(), key=...)]`. */
  function SortedItems(d: Dict, ks: seq<int>): seq<Item>
    requires |ks| == |d|
  {
    Values(SortByKey(Zip(ks, d)))
  }

  /** `process_file` up to writing its output. */
  function ProcessFile(path: string, data: seq<Entry>): Result<Output, Fault> {
    match Dedupe(data)
    case Err(f) => Err(f)
    case Ok(d) =>
      match Keys(d)
      case Err(f) => Err(f)
      case Ok(ks) => Ok(Output(OutputName(path), SortedItems(d, ks)))
  }

  predicate TimesDistinct(s: seq<Keyed>) {
    forall i, j :: 0 <= i < j < |s| ==> s[i].1.time != s[j].1.time
  }

  lemma {:induction false} InsertDistinct(x: Keyed, s: seq<Keyed>)
    requires TimesDistinct(s) && forall i :: 0 <= i < |s| ==> s[i].1.time != x.1.time
    ensures TimesDistinct(Insert(x, s))
    decreases |s|
  {
    if s != [] && x.0 >= s[0].0 {
      var rest := Insert(x, s[1..]);
      InsertDistinct(x, s[1..]);
      InsertPermutes(x, s[1..]);
      forall j | 0 <= j < |rest|
        ensures rest[j].1.time != s[0].1.time
      {
        assert rest[j] in multiset(rest);
        if rest[j] != x {
          var q :| 0 <= q < |s[1..]| && s[1..][q] == rest[j];
          assert s[q + 1] == rest[j];
        }
      }
    }
  }

  lemma {:induction false} SortByKeyDistinct(s: seq<Keyed>)
    requires TimesDistinct(s)
    ensures TimesDistinct(SortByKey(s))
  {
    if s != [] {
      var n := |s| - 1;
      var front := s[..n];
      SortByKeyDistinct(front);
      SortByKeySnoc(s);
      var sorted := SortByKey(front);
      forall i | 0 <= i < |sorted|
        ensures sorted[i].1.time != s[n].1.time
      {
        assert sorted[i] in multiset(front);
        var q :| 0 <= q < n && front[q] == sorted[i];
        assert s[q] == sorted[i];
      }
      InsertDistinct(s[n], sorted);
    }
  }

  /** Each element's key is `int()` of its item's time. */
  predicate KeysMatch(s: seq<Keyed>) {
    forall i :: 0 <= i < |s| ==> IntOf(s[i].1.time) == Ok(s[i].0)
  }

  lemma SortKeysMatch(z: seq<Keyed>)
    requires KeysMatch(z)
    ensures KeysMatch(SortByKey(z))
  {
    var sorted := SortByKey(z);
    forall i | 0 <= i < |sorted|
      ensures IntOf(sorted[i].1.time) == Ok(sorted[i].0)
    {
      assert sorted[i] in multiset(z);
      var q :| 0 <= q < |z| && z[q] == sorted[i];
    }
  }

  lemma SortSameItems(z: seq<Keyed>)
    ensures forall x :: x in Values(SortByKey(z)) <==> x in Values(z)
  {
    var sorted := SortByKey(z);
    forall x
      ensures x in Values(sorted) <==> x in Values(z)
    {
      if x in Values(sorted) {
        var i :| 0 <= i < |sorted| && Values(sorted)[i] == x;
        assert sorted[i] in multiset(z);
        var q :| 0 <= q < |z| && z[q] == sorted[i];
        assert Values(z)[q] == x;
      }
      if x in Values(z) {
        var q :| 0 <= q < |z| && Values(z)[q] == x;
        assert z[q] in multiset(sorted);
        var i :| 0 <= i < |sorted| && sorted[i] == z[q];
        assert Values(sorted)[i] == x;
      }
    }
  }

  /** Sorting the dictionary's items keeps each of them once and orders them
      by `int()` of their time. */
  lemma SortedItemsGuarantees(d: Dict)
    requires UniqueTimes(d) && Keys(d).Ok?
    ensures var items := SortedItems(d, Keys(d).value);
      && |items| == |d| && (forall x :: x in items <==> x in d)
      && UniqueTimes(items)
      && (forall i :: 0 <= i < |items| ==> IntOf(items[i].time).Ok?)
      && forall i, j :: 0 <= i < j < |items| ==> IntOf(items[i].time).value <= IntOf(items[j].time).value
  {
    var ks := Keys(d).value;
    var z := Zip(ks, d);
    var sorted := SortByKey(z);
    var items := Values(sorted);
    assert Values(z) == d;
    SortSameItems(z);
    SortKeysMatch(z);
    assert TimesDistinct(z);
    SortByKeyDistinct(z);
    assert forall i :: 0 <= i < |items| ==> items[i] == sorted[i].1;
  }

  /** The file's objects are the dictionary's items, each once, in ascending
      order of `int(time_ms)`; the output is named after the input. */
  lemma ProcessFileGuarantees(path: string, data: seq<Entry>)
    requires ProcessFile(path, data).Ok?
    ensures var out := ProcessFile(path, data).value;
      var d := Dedupe(data).value;
      && out.name == OutputName(path)
      && |out.items| == |d| && (forall x :: x in out.items <==> x in d)
      && UniqueTimes(out.items)
      && (forall i :: 0 <= i < |out.items| ==> IntOf(out.items[i].time).Ok?)
      && forall i, j :: 0 <= i < j < |out.items| ==>
           IntOf(out.items[i].time).value <= IntOf(out.items[j].time).value
  {
    SortedItemsGuarantees(Dedupe(data).value);
  }
}
