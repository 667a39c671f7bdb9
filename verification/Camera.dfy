/** The camera wrapper's rewriting of parameters, from what applications set to what the vendor's library takes,
    and back. */
module Camera {
  import opened Options

  /** A parameter's name. */
  datatype Key =
    | Iso | IsoValues | ShutterSpeed | SceneMode | SceneModeValues | RecordingHint | VideoHdr | VideoHdrValues
    | SonyIs | SonyIsValues | SonyVs | SonyVsValues | SonyVideoHdr | SonyVideoHdrValues
    | SonyIso | SonyIsoValues | SonyAeMode | SonyAeModeValues | SonyShutterSpeed
    | Other(name: string)

  type Params = map<Key, string>

  const AUTO := "auto"
  const HDR := "hdr"
  const TRUE := "true"
  const ON := "on"
  const OFF := "off"
  const STILL_HDR := "on-still-hdr"
  const INTELLIGENT_ACTIVE := "on-intelligent-active"
  const ISO_PRIO := "iso-prio"
  const SHUTTER_PRIO := "shutter-prio"
  const MANUAL := "manual"

  /** A parameter that is there and not empty. */
  predicate Has(m: Params, k: Key)
  {
    k in m && m[k] != ""
  }

  function At(m: Params, k: Key): Option<string>
  {
    if Has(m, k) then Some(m[k]) else None
  }

  /** A parameter can be set only to a value without the characters that separate parameters. */
  predicate Plain(value: string)
  {
    '=' !in value && ';' !in value
  }

  /** What a parameter is when it has been set: as it was if the value cannot be set. */
  function Kept(m: Params, k: Key, value: string): Option<string>
  {
    if !Plain(value) then At(m, k) else if value == "" then None else Some(value)
  }

  lemma WordsArePlain()
    ensures Plain(AUTO) && Plain(HDR) && Plain(ON) && Plain(OFF) && Plain(STILL_HDR) && Plain(INTELLIGENT_ACTIVE)
    ensures Plain(ISO_PRIO) && Plain(SHUTTER_PRIO) && Plain(MANUAL)
  {
  }

  /** strstr finds `part` in `s`. */
  predicate Contains(s: string, part: string)
  {
    exists i | 0 <= i <= |s| :: part <= s[i..]
  }

  /** What is found is a part of the string, and any part of it is found. */
  lemma FindsParts(s: string, part: string)
    ensures Contains(s, part) <==> exists before: string, after: string :: s == before + part + after
  {
    if Contains(s, part) {
      var i :| 0 <= i <= |s| && part <= s[i..];
      assert s == s[..i] + part + s[i + |part|..];
    }
    if before: string, after: string :| s == before + part + after {
      assert s[|before|..] == part + after;
    }
  }

  predicate Lists(m: Params, k: Key, value: string)
  {
    Has(m, k) && Contains(m[k], value)
  }

  // ---- what each parameter is after setting ----

  /** The application chose the shutter speed, or the ISO speed where the vendor can give that priority. */
  predicate ManualShutter(m: Params)
  {
    Has(m, ShutterSpeed) && m[ShutterSpeed] != AUTO
  }

  predicate ManualIso(m: Params)
  {
    Has(m, Iso) && m[Iso] != AUTO && Lists(m, SonyAeModeValues, ISO_PRIO)
  }

  /** The vendor's exposure mode: the application's choices decide it, unless neither is made and the vendor has no
      automatic mode to go to, or does not say what modes it has. */
  function AeModeSet(m: Params): Option<string>
  {
    if ManualIso(m) then
      if ManualShutter(m) || (!AutoShutter(m) && At(m, SonyAeMode) == Some(SHUTTER_PRIO))
      then Some(MANUAL) else Some(ISO_PRIO)
    else if ManualShutter(m) then Some(SHUTTER_PRIO)
    else if AutoShutter(m)
         || (At(m, Iso) == Some(AUTO) && Lists(m, SonyAeModeValues, AUTO) && At(m, SonyAeMode) != Some(SHUTTER_PRIO))
    then Some(AUTO)
    else At(m, SonyAeMode)
  }

  /** The exposure mode that the shutter speed asks for, and what the ISO speed then makes of it. */
  function AeModeWithoutIso(m: Params): Option<string>
  {
    if ManualShutter(m) then Some(SHUTTER_PRIO) else if AutoShutter(m) then Some(AUTO) else At(m, SonyAeMode)
  }

  function AeModeWithIso(m: Params): Option<string>
  {
    var ae := At(m, SonyAeMode);
    if ManualIso(m) then if ae == Some(SHUTTER_PRIO) then Some(MANUAL) else Some(ISO_PRIO)
    else if At(m, Iso) == Some(AUTO) && Lists(m, SonyAeModeValues, AUTO) && ae != Some(SHUTTER_PRIO) then Some(AUTO)
    else ae
  }

  /** The application left the shutter speed to a vendor that can choose it. */
  predicate AutoShutter(m: Params)
  {
    At(m, ShutterSpeed) == Some(AUTO) && Lists(m, SonyAeModeValues, AUTO)
  }

  predicate Recording(m: Params)
  {
    At(m, RecordingHint) == Some(TRUE)
  }

  /** What a parameter is after setting, given what they all were before. */
  function SetTo(m: Params, k: Key): Option<string>
  {
    match k
    case SonyShutterSpeed => if ManualShutter(m) then Kept(m, k, m[ShutterSpeed]) else At(m, k)
    case SonyAeMode => AeModeSet(m)
    case SonyIso => if Has(m, Iso) && m[Iso] != AUTO && |m[Iso]| >= 3 then Kept(m, k, m[Iso][3..]) else At(m, k)
    case SceneMode => if At(m, SceneMode) == Some(HDR) then Some(AUTO) else At(m, k)
    case SonyIs =>
      if Recording(m) then Some(OFF)
      else if Has(m, SceneMode) then Some(if m[SceneMode] == HDR then STILL_HDR else ON)
      else At(m, k)
    case SonyVideoHdr => if Has(m, SonyVideoHdr) && Has(m, VideoHdr) then Kept(m, k, m[VideoHdr]) else At(m, k)
    case SonyVs =>
      if Recording(m) then Some(if Lists(m, SonyVsValues, INTELLIGENT_ACTIVE) then INTELLIGENT_ACTIVE else OFF)
        else At(m, k)
    case _ => At(m, k)
  }

  /** What a parameter reads as, given what they all are. */
  function ReadAs(m: Params, k: Key): Option<string>
  {
    match k
    case SceneModeValues =>
      if Lists(m, SonyIsValues, STILL_HDR) then
        Kept(m, k, (if Has(m, k) then m[k] else "(null)") + ",hdr")
      else At(m, k)
    case IsoValues => if Has(m, SonyIsoValues) then Kept(m, k, IsoModes(m[SonyIsoValues])) else At(m, k)
    case SceneMode => if At(m, SonyIs) == Some(STILL_HDR) then Some(HDR) else At(m, k)
    case VideoHdrValues => if Has(m, SonyVideoHdr) && Has(m, SonyVideoHdrValues) then Kept(m, k, m[SonyVideoHdrValues])
      else At(m, k)
    case VideoHdr => if Has(m, SonyVideoHdr) && Has(m, SonyVideoHdrValues) then Kept(m, k, m[SonyVideoHdr])
      else At(m, k)
    case Iso =>
      if !Has(m, SonyIso) || !Has(m, SonyAeModeValues) then At(m, k)
      else if At(m, SonyAeMode) in {Some(ISO_PRIO), Some(MANUAL)} then Kept(m, k, "ISO" + m[SonyIso])
      else Some(AUTO)
    case ShutterSpeed =>
      if !Has(m, SonyIso) || !Has(m, SonyAeModeValues) then At(m, k)
      else if At(m, SonyAeMode) in {Some(SHUTTER_PRIO), Some(MANUAL)} then
        if Has(m, SonyShutterSpeed) then Kept(m, k, m[SonyShutterSpeed]) else At(m, k)
      else Some(AUTO)
    case _ => At(m, k)
  }

  // ---- the list of ISO modes ----

  /** The modes of a list, which commas separate. */
  function Split(s: string): (modes: seq<string>)
    ensures modes != []
  {
    if s == [] then [""]
    else if s[|s| - 1] == ',' then Split(s[..|s| - 1]) + [""]
    else var modes := Split(s[..|s| - 1]); modes[..|modes| - 1] + [modes[|modes| - 1] + [s[|s| - 1]]]
  }

  function Prefixed(modes: seq<string>): (r: seq<string>)
    ensures |r| == |modes| && forall i | 0 <= i < |modes| :: r[i] == "ISO" + modes[i]
  {
    seq(|modes|, i requires 0 <= i < |modes| => "ISO" + modes[i])
  }

  /** What becomes of one character of the vendor's list. */
  function Spelled(c: char): string
  {
    if c == ',' then ",ISO" else [c]
  }

  /** The list with every mode prefixed. */
  function Spread(s: string): string
  {
    if s == [] then "ISO" else Spread(s[..|s| - 1]) + Spelled(s[|s| - 1])
  }

  function IsoModes(s: string): string
  {
    Spread(s) + ",auto"
  }

  /** One more character goes to the last mode, or starts another. */
  function Grown(modes: seq<string>, c: char): seq<string>
    requires modes != []
  {
    if c == ',' then modes + [""] else modes[..|modes| - 1] + [modes[|modes| - 1] + [c]]
  }

  lemma SplitSnoc(s: string, c: char)
    ensures Split(s + [c]) == Grown(Split(s), c)
  {
    assert (s + [c])[..|s|] == s;
  }

  lemma {:induction false} SplitAppend(s: string, word: string)
    requires forall i | 0 <= i < |word| :: word[i] != ','
    ensures var modes := Split(s); Split(s + word) == modes[..|modes| - 1] + [modes[|modes| - 1] + word]
  {
    hide Split;
    var modes := Split(s);
    if word == "" {
      assert s + word == s && modes[|modes| - 1] + word == modes[|modes| - 1];
    } else {
      var n := |word| - 1;
      SplitAppend(s, word[..n]);
      SplitSnoc(s + word[..n], word[n]);
      assert s + word[..n] + [word[n]] == s + word;
      assert modes[|modes| - 1] + word == modes[|modes| - 1] + word[..n] + [word[n]];
    }
  }

  /** A word after a comma is one more mode. */
  lemma SplitComma(s: string, word: string)
    requires forall i | 0 <= i < |word| :: word[i] != ','
    ensures Split(s + "," + word) == Split(s) + [word]
  {
    hide Split;
    SplitSnoc(s, ',');
    SplitAppend(s + ",", word);
    assert "" + word == word;
  }

  lemma SpreadSnoc(s: string, c: char)
    ensures Spread(s + [c]) == Spread(s) + Spelled(c)
  {
    assert (s + [c])[..|s|] == s;
  }

  lemma PrefixedGrown(modes: seq<string>, c: char)
    requires modes != []
    ensures Prefixed(Grown(modes, c)) == if c == ',' then Prefixed(modes) + ["ISO"] else Grown(Prefixed(modes), c)
  {
    assert "ISO" + "" == "ISO";
    var last := modes[|modes| - 1];
    assert "ISO" + (last + [c]) == "ISO" + last + [c];
  }

  lemma ModesThenAuto(s: string)
    ensures IsoModes(s) == Spread(s) + ",auto" && |IsoModes(s)| == |Spread(s)| + 5
  {
  }

  lemma NoModes()
    ensures Split("") == [""] && Spread("") == "ISO"
  {
  }

  lemma OnePrefixed()
    ensures Prefixed([""]) == ["ISO"]
  {
    assert "ISO" + "" == "ISO";
  }

  lemma {:induction false} SpreadPrefixes(s: string)
    ensures Split(Spread(s)) == Prefixed(Split(s))
    decreases |s|, 0
  {
    hide Split, Spread, Prefixed;
    if s == [] {
      NoModes();
      OnePrefixed();
      SplitAppend("", "ISO");
      assert "" + "ISO" == "ISO";
    } else {
      SnocPrefixes(s[..|s| - 1], s[|s| - 1]);
      assert s[..|s| - 1] + [s[|s| - 1]] == s;
    }
  }

  lemma {:induction false} SnocPrefixes(s: string, c: char)
    ensures Split(Spread(s + [c])) == Prefixed(Split(s + [c]))
    decreases |s|, 1
  {
    hide Split, Spread, Prefixed, Grown;
    SpreadPrefixes(s);
    SpreadSnoc(s, c);
    SplitSnoc(s, c);
    PrefixedGrown(Split(s), c);
    if c == ',' {
      SplitComma(Spread(s), "ISO");
      assert Spread(s) + "," + "ISO" == Spread(s) + ",ISO";
    } else {
      SplitSnoc(Spread(s), c);
    }
  }

  /** The application sees every mode of the vendor's list, prefixed, in order, and then the automatic one. */
  lemma IsoModesAreListed(s: string)
    ensures Split(IsoModes(s)) == Prefixed(Split(s)) + [AUTO]
  {
    hide Split, Spread, Prefixed;
    SpreadPrefixes(s);
    SplitComma(Spread(s), AUTO);
    assert Spread(s) + "," + AUTO == IsoModes(s);
  }

  // ---- what setting and reading must come to ----

  /** While it is to record, the camera has its image stabiliser off, and of the video stabiliser's modes one that the
      vendor lists, the intelligent one if it can, or none; otherwise still HDR is the image stabiliser's for the HDR
      scene alone, and the video stabiliser is as it was. */
  ghost predicate Stabilises(was: Params, sent: Params)
  {
    if Recording(was) then
      && At(sent, SonyIs) == Some(OFF) && Has(sent, SonyVs)
      && (sent[SonyVs] == OFF || Lists(was, SonyVsValues, sent[SonyVs]))
      && (Lists(was, SonyVsValues, INTELLIGENT_ACTIVE) ==> sent[SonyVs] == INTELLIGENT_ACTIVE)
    else
      && At(sent, SonyVs) == At(was, SonyVs)
      && (!Has(was, SceneMode) ==> At(sent, SonyIs) == At(was, SonyIs))
      && (Has(was, SceneMode) ==> At(sent, SonyIs) == Some(if was[SceneMode] == HDR then STILL_HDR else ON))
  }

  /** The exposure mode gives the shutter speed or the ISO speed priority if the application chose it, both if it chose
      both, and is no other than before unless the vendor lists it or the application chose the shutter speed. */
  ghost predicate Exposes(was: Params, sent: Params)
  {
    var ae := At(sent, SonyAeMode);
    && (ManualShutter(was) ==> ae == Some(if ManualIso(was) then MANUAL else SHUTTER_PRIO))
    && (ManualIso(was) && AutoShutter(was) ==> ae == Some(ISO_PRIO))
    && (ManualIso(was) ==> ae in {Some(ISO_PRIO), Some(MANUAL)})
    && (!ManualIso(was) && AutoShutter(was) ==> ae == Some(AUTO))
    && (ae == At(was, SonyAeMode) || ManualShutter(was) || (ae == Some(MANUAL) && ManualIso(was)) ||
        (ae.Some? && Lists(was, SonyAeModeValues, ae.value)))
  }

  ghost predicate SetProperly(was: Params, sent: Params)
  {
    && Stabilises(was, sent) && Exposes(was, sent)
    && At(sent, SceneMode) == (if At(was, SceneMode) == Some(HDR) then Some(AUTO) else At(was, SceneMode))
    && forall k | k !in {SonyShutterSpeed, SonyAeMode, SonyIso, SceneMode, SonyIs, SonyVideoHdr, SonyVs} ::
      At(sent, k) == At(was, k)
  }

  /** The text form of parameters separates them by these characters, which no value may have. */
  ghost predicate Written(m: Params)
  {
    forall k | Has(m, k) :: '=' !in m[k] && ';' !in m[k]
  }

  /** Parameters that can be written out still can once set. */
  lemma StaysWritten(was: Params, sent: Params)
    requires Written(was)
    requires forall k :: At(sent, k) == SetTo(was, k)
    ensures Written(sent)
  {
    hide Contains;
    WordsArePlain();
    forall k | Has(sent, k) ensures Plain(sent[k]) {
      assert At(sent, k) == SetTo(was, k);
    }
  }

  /** And once read. */
  lemma StaysReadOut(sent: Params, read: Params)
    requires Written(sent)
    requires forall k :: At(read, k) == ReadAs(sent, k)
    ensures Written(read)
  {
    hide Contains, IsoModes;
    WordsArePlain();
    forall k | Has(read, k) ensures Plain(read[k]) {
      assert At(read, k) == ReadAs(sent, k);
    }
  }

  /** Of what setting comes to, what the vendor and the application can each count on. */
  lemma SetsProperly(was: Params, sent: Params)
    requires forall k :: At(sent, k) == SetTo(was, k)
    ensures SetProperly(was, sent)
  {
    hide Contains, Plain;
    assert At(sent, SonyIs) == SetTo(was, SonyIs) && At(sent, SonyVs) == SetTo(was, SonyVs);
    assert At(sent, SonyAeMode) == SetTo(was, SonyAeMode);
  }

  /** The list is the vendor's with these modes after it, or left alone if it cannot be set. */
  ghost predicate ListedAs(sent: Params, read: Params, k: Key, list: string, modes: seq<string>)
  {
    if Plain(list) then Has(read, k) && Split(read[k]) == modes else At(read, k) == At(sent, k)
  }

  /** The scenes gain HDR if the vendor's stabiliser has it; the ISO modes are the vendor's, prefixed, and the automatic
      one; and video HDR and its values are the vendor's. What the vendor has not is left as it was. */
  ghost predicate ReadProperly(sent: Params, read: Params)
  {
    && (var scenes := if Has(sent, SceneModeValues) then sent[SceneModeValues] else "(null)";
        if Lists(sent, SonyIsValues, STILL_HDR) then
          ListedAs(sent, read, SceneModeValues, scenes, Split(scenes) + [HDR])
        else At(read, SceneModeValues) == At(sent, SceneModeValues))
    && (if Has(sent, SonyIsoValues) then
          var modes := sent[SonyIsoValues];
          ListedAs(sent, read, IsoValues, modes, Prefixed(Split(modes)) + [AUTO])
        else At(read, IsoValues) == At(sent, IsoValues))
    && (if Has(sent, SonyVideoHdr) && Has(sent, SonyVideoHdrValues) then
          && (Plain(sent[SonyVideoHdr]) ==> At(read, VideoHdr) == At(sent, SonyVideoHdr))
          && (Plain(sent[SonyVideoHdrValues]) ==> At(read, VideoHdrValues) == At(sent, SonyVideoHdrValues))
        else At(read, VideoHdr) == At(sent, VideoHdr) && At(read, VideoHdrValues) == At(sent, VideoHdrValues))
    && forall k | k !in {SceneModeValues, IsoValues, SceneMode, VideoHdrValues, VideoHdr, Iso, ShutterSpeed} ::
      At(read, k) == At(sent, k)
  }

  lemma ReadsProperly(sent: Params, read: Params)
    requires forall k :: At(read, k) == ReadAs(sent, k)
    ensures ReadProperly(sent, read)
  {
    hide Contains, Plain, Split, Prefixed, IsoModes;
    assert At(read, SceneModeValues) == ReadAs(sent, SceneModeValues) && At(read, IsoValues) == ReadAs(sent, IsoValues);
    assert At(read, VideoHdr) == ReadAs(sent, VideoHdr) && At(read, VideoHdrValues) == ReadAs(sent, VideoHdrValues);
    var scenes := if Has(sent, SceneModeValues) then sent[SceneModeValues] else "(null)";
    SceneListed(scenes);
    if Has(sent, SonyIsoValues) {
      IsoModesAreListed(sent[SonyIsoValues]);
      IsoModesArePlain(sent[SonyIsoValues]);
    }
  }

  lemma SceneListed(scenes: string)
    ensures Split(scenes + ",hdr") == Split(scenes) + [HDR]
    ensures Plain(scenes + ",hdr") <==> Plain(scenes)
  {
    SplitComma(scenes, HDR);
    assert scenes + "," + HDR == scenes + ",hdr";
  }

  lemma IsoModesArePlain(s: string)
    ensures Plain(IsoModes(s)) <==> Plain(s)
    ensures IsoModes(s) != ""
  {
    SpreadIsPlain(s);
  }

  lemma {:induction false} SpreadIsPlain(s: string)
    ensures Plain(Spread(s)) <==> Plain(s)
  {
    if s != [] {
      SpreadIsPlain(s[..|s| - 1]);
      assert s == s[..|s| - 1] + [s[|s| - 1]];
    }
  }

  predicate Ends(s: string, word: string)
  {
    |word| <= |s| && s[|s| - |word|..] == word
  }

  lemma EndsSnoc(s: string, word: string, c: char)
    requires Ends(s, word)
    ensures Ends(s + [c], word + [c]) && Ends(s + [c], "")
  {
  }

  lemma {:induction false} LastModeEndsList(s: string)
    ensures var modes := Split(s); Ends(s, modes[|modes| - 1])
  {
    hide Split;
    if s == [] {
      NoModes();
    } else {
      var before, c := s[..|s| - 1], s[|s| - 1];
      assert s == before + [c];
      SplitSnoc(before, c);
      LastModeEndsList(before);
      var modes := Split(before);
      EndsSnoc(before, modes[|modes| - 1], c);
    }
  }

  /** A mode that a comma-separated list has is found in it, as the intelligent one and still HDR are looked for. */
  lemma {:induction false} ModesAreFound(s: string, mode: string)
    requires mode in Split(s)
    ensures Contains(s, mode)
  {
    LastModeEndsList(s);
    var modes := Split(s);
    if mode == modes[|modes| - 1] {
      assert mode <= s[|s| - |mode|..];
    } else {
      var before := s[..|s| - 1];
      ModesAreFound(before, mode);
      var i :| 0 <= i <= |before| && mode <= before[i..];
      assert mode <= s[i..];
    }
  }

  /** What an application sets video HDR to reads back, exactly if the vendor has none, or can be given the value, or
      has one that cannot be read either. */
  lemma VideoHdrRoundTrip(was: Params, sent: Params, read: Params)
    requires forall k :: At(sent, k) == SetTo(was, k)
    requires forall k :: At(read, k) == ReadAs(sent, k)
    requires Has(was, VideoHdr)
    ensures At(read, VideoHdr) == At(was, VideoHdr) <==>
      || !Has(was, SonyVideoHdr) || !Has(was, SonyVideoHdrValues)
      || Plain(was[VideoHdr]) || !Plain(was[SonyVideoHdr])
  {
    hide Contains, Plain;
    assert At(read, VideoHdr) == ReadAs(sent, VideoHdr) && At(sent, VideoHdr) == SetTo(was, VideoHdr);
    assert At(sent, SonyVideoHdr) == SetTo(was, SonyVideoHdr);
    assert At(sent, SonyVideoHdrValues) == SetTo(was, SonyVideoHdrValues);
  }

  // ---- the rewriting, step by step ----

  // what the steps of setting change, one after another

  function ExposureTo(m: Params, k: Key): Option<string>
  {
    match k
    case SonyShutterSpeed => SetTo(m, k)
    case SonyIso => SetTo(m, k)
    case SonyAeMode => SetTo(m, k)
    case _ => At(m, k)
  }

  function SceneTo(m: Params, k: Key): Option<string>
  {
    match k
    case SceneMode => SetTo(m, k)
    case SonyIs => if Has(m, SceneMode) then Some(if m[SceneMode] == HDR then STILL_HDR else ON) else At(m, k)
    case _ => At(m, k)
  }

  function VideoTo(m: Params, k: Key): Option<string>
  {
    match k
    case SonyVideoHdr => SetTo(m, k)
    case SonyVs => SetTo(m, k)
    case SonyIs => if Recording(m) then Some(OFF) else At(m, k)
    case _ => At(m, k)
  }

  lemma StepsAddUp(was: Params, exposed: Params, staged: Params)
    requires forall k :: At(exposed, k) == ExposureTo(was, k)
    requires forall k :: At(staged, k) == SceneTo(exposed, k)
    ensures forall k :: VideoTo(staged, k) == SetTo(was, k)
  {
    hide AeModeSet, Contains;
    forall k | k in {Iso, ShutterSpeed, SonyAeModeValues, RecordingHint, VideoHdr, SonyVideoHdr,
      SonyVsValues} ensures At(was, k) == At(staged, k) {
      assert At(staged, k) == SceneTo(exposed, k) && At(exposed, k) == ExposureTo(was, k);
    }
    ReadAlike(was, staged);
    assert At(exposed, SceneMode) == At(was, SceneMode);
    forall k ensures VideoTo(staged, k) == SetTo(was, k) {
      assert At(staged, k) == SceneTo(exposed, k) && At(exposed, k) == ExposureTo(was, k);
    }
  }

  /** What setting looks at and does not change until it has looked. */
  lemma ReadAlike(m: Params, n: Params)
    requires forall k | k in {Iso, ShutterSpeed, SonyAeModeValues, RecordingHint, VideoHdr, SonyVideoHdr,
      SonyVsValues} :: At(m, k) == At(n, k)
    ensures Has(m, Iso) <==> Has(n, Iso)
    ensures Has(m, Iso) ==> m[Iso] == n[Iso]
    ensures forall value :: Lists(m, SonyAeModeValues, value) <==> Lists(n, SonyAeModeValues, value)
    ensures forall value :: Lists(m, SonyVsValues, value) <==> Lists(n, SonyVsValues, value)
    ensures ManualShutter(m) == ManualShutter(n) && ManualIso(m) == ManualIso(n) && AutoShutter(m) == AutoShutter(n)
    ensures Recording(m) == Recording(n) && SetTo(m, SonyVideoHdr) == SetTo(n, SonyVideoHdr)
  {
    assert At(m, Iso) == At(n, Iso) && At(m, ShutterSpeed) == At(n, ShutterSpeed) &&
      At(m, SonyAeModeValues) == At(n, SonyAeModeValues);
    assert At(m, VideoHdr) == At(n, VideoHdr) && At(m, SonyVideoHdr) == At(n, SonyVideoHdr);
    assert At(m, RecordingHint) == At(n, RecordingHint) && At(m, SonyVsValues) == At(n, SonyVsValues);
  }

  /** The vendor's lists and modes that the code compares as strings are there to be compared. */
  predicate Settable(m: Params)
  {
    && (At(m, ShutterSpeed) == Some(AUTO) ==> Has(m, SonyAeModeValues))
    && (Lists(m, SonyAeModeValues, if At(m, Iso) == Some(AUTO) then AUTO else ISO_PRIO) && Has(m, Iso) ==>
          (ManualShutter(m) || AutoShutter(m) || Has(m, SonyAeMode)))
    && (Has(m, Iso) && m[Iso] != AUTO ==> |m[Iso]| >= 3)
  }

  predicate Readable(m: Params)
  {
    && (Has(m, SonyIso) && Has(m, SonyAeModeValues) ==> Has(m, SonyAeMode))
    && (Has(m, SonyIsoValues) ==> FitsBuffer(m[SonyIsoValues]))
  }

  class CameraParameters {
    var entries: Params

    constructor (entries: Params)
      ensures this.entries == entries
    {
      this.entries := entries;
    }

    /** CameraParameters::set, which ignores what would not survive being written out. */
    method Set(k: Key, value: string)
      modifies this
      ensures entries == if Plain(value) then old(entries)[k := value] else old(entries)
      ensures forall l :: At(entries, l) == if l == k then Kept(old(entries), k, value) else At(old(entries), l)
    {
      if '=' !in value && ';' !in value {
        entries := entries[k := value];
      }
    }

    /** The shutter speed goes to the vendor, which is told who chooses it. */
    method SetShutterSpeed()
      requires At(entries, ShutterSpeed) == Some(AUTO) ==> Has(entries, SonyAeModeValues)
      modifies this
      ensures forall k :: At(entries, k) == match k
        case SonyShutterSpeed => SetTo(old(entries), k)
        case SonyAeMode => AeModeWithoutIso(old(entries))
        case _ => At(old(entries), k)
    {
      hide Contains, Plain;
      WordsArePlain();
      if Has(entries, ShutterSpeed) {
        var shutterSpeed := entries[ShutterSpeed];
        if shutterSpeed != AUTO {
          Set(SonyShutterSpeed, shutterSpeed);
          Set(SonyAeMode, SHUTTER_PRIO);
        } else if Contains(entries[SonyAeModeValues], AUTO) {
          Set(SonyAeMode, AUTO);
        }
      }
    }

    /** The ISO speed goes to the vendor without its prefix, and the exposure mode takes account of it. */
    method SetIso()
      requires Has(entries, Iso) && Lists(entries, SonyAeModeValues, if entries[Iso] == AUTO then AUTO else ISO_PRIO)
               ==> Has(entries, SonyAeMode)
      requires Has(entries, Iso) && entries[Iso] != AUTO ==> |entries[Iso]| >= 3
      modifies this
      ensures forall k :: At(entries, k) == match k
        case SonyIso => SetTo(old(entries), k)
        case SonyAeMode => AeModeWithIso(old(entries))
        case _ => At(old(entries), k)
    {
      hide Contains, Plain;
      WordsArePlain();
      if Has(entries, Iso) {
        var isoMode := entries[Iso];
        if isoMode != AUTO {
          Set(SonyIso, isoMode[3..]);
        }
        if Has(entries, SonyAeModeValues) {
          var aeModes := entries[SonyAeModeValues];
          if isoMode == AUTO {
            if Contains(aeModes, AUTO) && entries[SonyAeMode] != SHUTTER_PRIO {
              Set(SonyAeMode, AUTO);
            }
          } else if Contains(aeModes, ISO_PRIO) {
            if entries[SonyAeMode] == SHUTTER_PRIO {
              Set(SonyAeMode, MANUAL);
            } else {
              Set(SonyAeMode, ISO_PRIO);
            }
          }
        }
      }
    }

    /** A high dynamic range scene becomes a mode of the vendor's image stabiliser. */
    method SetScene()
      modifies this
      ensures forall k :: At(entries, k) == SceneTo(old(entries), k)
    {
      hide Contains, Plain;
      WordsArePlain();
      if Has(entries, SceneMode) {
        if entries[SceneMode] == HDR {
          Set(SonyIs, STILL_HDR);
          Set(SceneMode, AUTO);
        } else {
          Set(SonyIs, ON);
        }
      }
    }

    method SetVideo()
      modifies this
      ensures forall k :: At(entries, k) == VideoTo(old(entries), k)
    {
      hide Contains, Plain;
      WordsArePlain();
      if Has(entries, SonyVideoHdr) && Has(entries, VideoHdr) {
        Set(SonyVideoHdr, entries[VideoHdr]);
      }
      if Has(entries, RecordingHint) && entries[RecordingHint] == TRUE {
        if Has(entries, SonyVsValues) && Contains(entries[SonyVsValues], INTELLIGENT_ACTIVE) {
          Set(SonyVs, INTELLIGENT_ACTIVE);
        } else {
          Set(SonyVs, OFF);
        }
        Set(SonyIs, OFF);
      }
    }

    method SetExposure()
      requires Settable(entries)
      modifies this
      ensures forall k :: At(entries, k) == ExposureTo(old(entries), k)
    {
      hide Contains;
      ghost var was := entries;
      SetShutterSpeed();
      ReadAlike(was, entries);
      assert At(entries, SonyAeMode) == AeModeWithoutIso(was);
      SetIso();
    }

    /** camera_fixup_setparams. */
    method FixupSetParams()
      requires Settable(entries)
      modifies this
      ensures forall k :: At(entries, k) == SetTo(old(entries), k)
      ensures SetProperly(old(entries), entries) && (Written(old(entries)) ==> Written(entries))
    {
      hide SetProperly, Written;
      hide ExposureTo, SceneTo, VideoTo, SetTo, Settable;
      ghost var was := entries;
      SetExposure();
      ghost var exposed := entries;
      SetScene();
      StepsAddUp(was, exposed, entries);
      SetVideo();
      SetsProperly(was, entries);
      if Written(was) {
        StaysWritten(was, entries);
      }
    }

    /** camera_fixup_capability: high dynamic range is one more scene if the stabiliser can do it. */
    method FixupCapability()
      modifies this
      ensures forall k :: At(entries, k) == if k.SceneModeValues? then ReadAs(old(entries), k) else At(old(entries), k)
    {
      hide Contains, Plain;
      WordsArePlain();
      if Has(entries, SonyIsValues) && Contains(entries[SonyIsValues], STILL_HDR) {
        var supportedSceneModes := if Has(entries, SceneModeValues) then entries[SceneModeValues] else "(null)";
        Set(SceneModeValues, supportedSceneModes + ",hdr");
      }
    }

    method GetIsoModes()
      requires Has(entries, SonyIsoValues) ==> FitsBuffer(entries[SonyIsoValues])
      modifies this
      ensures forall k :: At(entries, k) == if k.IsoValues? then ReadAs(old(entries), k) else At(old(entries), k)
    {
      hide Contains, Plain;
      WordsArePlain();
      if Has(entries, SonyIsoValues) {
        var modes := ListIsoModes(entries[SonyIsoValues]);
        Set(IsoValues, modes);
      }
    }

    method GetScene()
      modifies this
      ensures forall k ::
        At(entries, k) ==
        if k in {SceneMode, VideoHdr, VideoHdrValues} then ReadAs(old(entries), k) else At(old(entries), k)
    {
      hide Contains, Plain;
      WordsArePlain();
      if Has(entries, SonyIs) && entries[SonyIs] == STILL_HDR {
        Set(SceneMode, HDR);
      }
      if Has(entries, SonyVideoHdr) && Has(entries, SonyVideoHdrValues) {
        Set(VideoHdrValues, entries[SonyVideoHdrValues]);
        Set(VideoHdr, entries[SonyVideoHdr]);
      }
    }

    method GetExposure()
      requires Has(entries, SonyIso) && Has(entries, SonyAeModeValues) ==> Has(entries, SonyAeMode)
      modifies this
      ensures forall k ::
        At(entries, k) == if k.Iso? || k.ShutterSpeed? then ReadAs(old(entries), k) else At(old(entries), k)
    {
      hide Contains, Plain;
      WordsArePlain();
      if Has(entries, SonyIso) && Has(entries, SonyAeModeValues) {
        var aeMode := entries[SonyAeMode];
        if aeMode == AUTO {
          Set(Iso, AUTO);
          Set(ShutterSpeed, AUTO);
        } else if aeMode == ISO_PRIO {
          Set(Iso, "ISO" + entries[SonyIso]);
          Set(ShutterSpeed, AUTO);
        } else if aeMode == SHUTTER_PRIO {
          Set(Iso, AUTO);
          if Has(entries, SonyShutterSpeed) {
            Set(ShutterSpeed, entries[SonyShutterSpeed]);
          }
        } else if aeMode == MANUAL {
          if Has(entries, SonyShutterSpeed) {
            Set(ShutterSpeed, entries[SonyShutterSpeed]);
          }
          Set(Iso, "ISO" + entries[SonyIso]);
        } else {
          Set(Iso, AUTO);
          Set(ShutterSpeed, AUTO);
        }
      }
    }

    /** camera_fixup_getparams. */
    method FixupGetParams()
      requires Readable(entries)
      modifies this
      ensures forall k :: At(entries, k) == ReadAs(old(entries), k)
      ensures ReadProperly(old(entries), entries) && (Written(old(entries)) ==> Written(entries))
    {
      hide Contains, FitsBuffer, ReadProperly, Written;
      ghost var was := entries;
      FixupCapability();
      ReadsOn(was, entries);
      GetIsoModes();
      ReadsOn(was, entries);
      GetScene();
      ReadsOn(was, entries);
      GetExposure();
      ReadsProperly(was, entries);
      if Written(was) {
        StaysReadOut(was, entries);
      }
    }
  }

  /** What reading looks at. */
  ghost predicate SameInputs(m: Params, n: Params)
  {
    forall k | k in {SonyIs, SonyIsValues, SonyVideoHdr, SonyVideoHdrValues, SonyIso, SonyIsoValues, SonyAeMode,
      SonyAeModeValues, SonyShutterSpeed} ::
      At(m, k) == At(n, k)
  }

  lemma StaysReadable(m: Params, n: Params)
    requires SameInputs(m, n) && Readable(m)
    ensures Readable(n)
  {
    hide FitsBuffer;
    assert At(m, SonyIso) == At(n, SonyIso) && At(m, SonyIsoValues) == At(n, SonyIsoValues);
    assert At(m, SonyAeMode) == At(n, SonyAeMode) && At(m, SonyAeModeValues) == At(n, SonyAeModeValues);
  }

  lemma ReadsTheSame(m: Params, n: Params, k: Key)
    requires SameInputs(m, n) && At(m, k) == At(n, k)
    ensures ReadAs(m, k) == ReadAs(n, k)
  {
    hide Contains, IsoModes;
    assert At(m, SonyIs) == At(n, SonyIs) && At(m, SonyIsValues) == At(n, SonyIsValues);
    assert At(m, SonyVideoHdr) == At(n, SonyVideoHdr) && At(m, SonyVideoHdrValues) == At(n, SonyVideoHdrValues);
    assert At(m, SonyIso) == At(n, SonyIso) && At(m, SonyIsoValues) == At(n, SonyIsoValues);
    assert At(m, SonyAeMode) == At(n, SonyAeMode) && At(m, SonyAeModeValues) == At(n, SonyAeModeValues);
    assert At(m, SonyShutterSpeed) == At(n, SonyShutterSpeed);
  }

  /** What is not yet read reads as it did. */
  lemma ReadsOn(m: Params, n: Params)
    requires SameInputs(m, n)
    ensures Readable(m) ==> Readable(n)
    ensures forall k | At(m, k) == At(n, k) :: ReadAs(m, k) == ReadAs(n, k)
  {
    hide SameInputs, ReadAs, Readable;
    if Readable(m) {
      StaysReadable(m, n);
    }
    forall k | At(m, k) == At(n, k) ensures ReadAs(m, k) == ReadAs(n, k) {
      ReadsTheSame(m, n, k);
    }
  }

  // ---- setting and reading back ----

  /** An application's settings that the vendor can take: all three are there, the ISO speed as it is listed, and
      the vendor can choose the exposure itself. */
  predicate Complete(m: Params)
  {
    && Has(m, ShutterSpeed) && Has(m, SceneMode) && Has(m, Iso) && (m[Iso] == AUTO || "ISO" <= m[Iso])
    && Lists(m, SonyAeModeValues, AUTO)
  }

  predicate ReadsBack(m: Params, read: Params)
  {
    At(read, Iso) == At(m, Iso) && At(read, ShutterSpeed) == At(m, ShutterSpeed) &&
      At(read, SceneMode) == At(m, SceneMode)
  }

  /** The ISO speed reads back: none was chosen; or there is none for the vendor, whose own does not come back; or the
      vendor gives it priority and it is the one chosen, or cannot be read into its place. */
  predicate IsoHeld(m: Params)
    requires Complete(m)
  {
    var sent := SetTo(m, SonyIso);
    m[Iso] == AUTO || sent.None? ||
    (Lists(m, SonyAeModeValues, ISO_PRIO) && (sent == Some(m[Iso][3..]) || !Plain(sent.value)))
  }

  /** The shutter speed reads back, likewise; it is not looked at without an ISO speed. */
  predicate ShutterHeld(m: Params)
    requires Complete(m)
  {
    var sent := SetTo(m, SonyShutterSpeed);
    m[ShutterSpeed] == AUTO || SetTo(m, SonyIso).None? || sent.None? || sent == Some(m[ShutterSpeed]) ||
    !Plain(sent.value)
  }

  /** The settings the vendor can hold: high dynamic range only if it is not to record. */
  predicate Holdable(m: Params)
    requires Complete(m)
  {
    IsoHeld(m) && ShutterHeld(m) && !(Recording(m) && m[SceneMode] == HDR)
  }

  /** For settings that can be written out this means: an ISO speed only if the vendor can give it priority. */
  lemma PlainIsHoldable(m: Params)
    requires Complete(m) && Plain(m[Iso]) && Plain(m[ShutterSpeed]) && m[Iso] != "ISO"
    ensures Holdable(m) <==>
      (m[Iso] == AUTO || Lists(m, SonyAeModeValues, ISO_PRIO)) && !(Recording(m) && m[SceneMode] == HDR)
  {
    hide Contains;
    if m[Iso] != AUTO {
      assert m[Iso] == "ISO" + m[Iso][3..];
      assert forall c | c in m[Iso][3..] :: c in m[Iso];
    }
  }

  lemma PrefixedIsPlain(value: string)
    ensures Plain("ISO" + value) <==> Plain(value)
  {
    assert forall c | c in "ISO" + value :: c in "ISO" || c in value;
    assert forall c | c in value :: c in "ISO" + value;
  }

  /** What an application set reads back the same, exactly if the vendor can hold it. */
  lemma RoundTrip(was: Params, sent: Params, read: Params)
    requires Complete(was)
    requires forall k :: At(sent, k) == SetTo(was, k)
    requires forall k :: At(read, k) == ReadAs(sent, k)
    ensures ReadsBack(was, read) <==> Holdable(was)
  {
    hide Contains, Plain;
    assert At(sent, SonyAeModeValues) == At(was, SonyAeModeValues) && At(sent, Iso) == At(was, Iso) &&
      At(sent, ShutterSpeed) == At(was, ShutterSpeed);
    assert At(sent, SonyIso) == SetTo(was, SonyIso) && At(sent, SonyShutterSpeed) == SetTo(was, SonyShutterSpeed);
    assert At(sent, SonyAeMode) == SetTo(was, SonyAeMode) && At(sent, SonyIs) == SetTo(was, SonyIs) &&
      At(sent, SceneMode) == SetTo(was, SceneMode);
    assert At(read, Iso) == ReadAs(sent, Iso) && At(read, ShutterSpeed) == ReadAs(sent, ShutterSpeed) &&
      At(read, SceneMode) == ReadAs(sent, SceneMode);
    if Has(sent, SonyIso) {
      PrefixedIsPlain(sent[SonyIso]);
      assert ("ISO" + sent[SonyIso])[3..] == sent[SonyIso];
    }
    if was[Iso] != AUTO {
      assert "ISO" + was[Iso][3..] == was[Iso];
    }
  }

  /** The same, of the code: the vendor's library keeps what it is given. */
  method SetAndRead(params: CameraParameters) returns (same: bool)
    requires Complete(params.entries)
    requires Has(params.entries, SonyIsoValues) ==> FitsBuffer(params.entries[SonyIsoValues])
    modifies params
    ensures ReadsBack(old(params.entries), params.entries) <==> Holdable(old(params.entries))
    ensures same == Holdable(old(params.entries))
  {
    hide Contains, FitsBuffer;
    var was := params.entries;
    params.FixupSetParams();
    ghost var sent := params.entries;
    assert At(sent, SonyAeMode) == SetTo(was, SonyAeMode) && At(sent, SonyIsoValues) == SetTo(was, SonyIsoValues);
    params.FixupGetParams();
    RoundTrip(was, sent, params.entries);
    same := ReadsBack(was, params.entries);
  }

  // ---- the buffer the list of ISO modes is made in ----

  const BUFFER: nat := 255

  /** A C string that, made into the application's list, fits the buffer with its terminator. */
  predicate FitsBuffer(s: string)
  {
    '\0' !in s && |IsoModes(s)| < BUFFER
  }

  lemma SpreadGrows(s: string, n: nat)
    requires n <= |s| && '\0' !in s
    ensures |Spread(s[..n])| <= |Spread(s)| && '\0' !in Spread(s[..n])
    ensures n < |s| ==> |Spread(s[..n + 1])| <= |Spread(s)|
    decreases |s| - n
  {
    NoNul(s[..n]);
    if n < |s| {
      SpreadSnoc(s[..n], s[n]);
      assert s[..n] + [s[n]] == s[..n + 1];
      SpreadGrows(s, n + 1);
    } else {
      assert s[..n] == s;
    }
  }

  lemma {:induction false} NoNul(s: string)
    requires '\0' !in s
    ensures '\0' !in Spread(s)
  {
    if s != [] {
      NoNul(s[..|s| - 1]);
      assert s[|s| - 1] in s;
    }
  }

  /** strcat, into a buffer that is terminated after `n` characters. */
  method StrCat(buffer: array<char>, text: string, ghost n: nat)
    requires n + |text| < buffer.Length && '\0' !in buffer[..n] && buffer[n] == '\0'
    modifies buffer
    ensures buffer[..n + |text|] == old(buffer[..n]) + text
    ensures buffer[n + |text| + 1..] == old(buffer[n + |text| + 1..])
    ensures buffer[n + |text|] == '\0'
  {
    var end := 0;
    assert forall k | 0 <= k < n :: buffer[k] == buffer[..n][k] != '\0';
    while buffer[end] != '\0'
      invariant end <= n
      decreases n - end
    {
      end := end + 1;
    }
    for i := 0 to |text|
      invariant buffer[..n + i] == old(buffer[..n]) + text[..i]
      invariant buffer[n + i..] == old(buffer[n + i..])
    {
      buffer[end + i] := text[i];
    }
    buffer[end + |text|] := '\0';
    assert text[..|text|] == text;
  }

  /** The buffer holds this string, and nothing after it. */
  ghost predicate Holds(buffer: array<char>, text: string)
    reads buffer
  {
    |text| < buffer.Length && buffer[..|text|] == text && forall k | |text| <= k < buffer.Length :: buffer[k] == '\0'
  }

  /** One turn of the loop over the vendor's list: the character, or the prefix after a comma. */
  method Append(buffer: array<char>, bufferPos: nat, c: char, ghost text: string) returns (next: nat)
    requires Holds(buffer, text) && bufferPos == |text| && '\0' !in text && |text| + |Spelled(c)| < buffer.Length
    modifies buffer
    ensures Holds(buffer, text + Spelled(c)) && next == |text| + |Spelled(c)|
  {
    if c != ',' {
      buffer[bufferPos] := c;
      next := bufferPos + 1;
    } else {
      next := AppendText(buffer, bufferPos, ",ISO", text);
    }
  }

  method AppendText(buffer: array<char>, bufferPos: nat, more: string, ghost text: string) returns (next: nat)
    requires Holds(buffer, text) && bufferPos == |text| && '\0' !in text && |text| + |more| < buffer.Length
    modifies buffer
    ensures Holds(buffer, text + more) && next == |text| + |more|
  {
    StrCat(buffer, more, bufferPos);
    next := bufferPos + |more|;
    forall k | next < k < buffer.Length ensures buffer[k] == '\0' {
      assert buffer[next + 1..][k - next - 1] == old(buffer[next + 1..])[k - next - 1];
    }
  }

  /** The loop over the vendor's list: characters one by one, and the prefix after every comma. */
  method ListIsoModes(isoModeList: string) returns (modes: string)
    requires FitsBuffer(isoModeList)
    ensures modes == IsoModes(isoModeList)
  {
    hide Spelled, Spread, IsoModes;
    var buffer := new char[BUFFER](_ => '\0');
    buffer[0], buffer[1], buffer[2] := 'I', 'S', 'O';
    var bufferPos := 3;
    SpreadGrows(isoModeList, 0);
    NoModes();
    ModesThenAuto(isoModeList);
    assert isoModeList[..0] == "" && buffer[..3] == "ISO";
    for pos := 0 to |isoModeList|
      invariant bufferPos == |Spread(isoModeList[..pos])| <= |Spread(isoModeList)|
      invariant Holds(buffer, Spread(isoModeList[..pos]))
    {
      SpreadGrows(isoModeList, pos);
      SpreadSnoc(isoModeList[..pos], isoModeList[pos]);
      assert isoModeList[..pos + 1] == isoModeList[..pos] + [isoModeList[pos]];
      bufferPos := Append(buffer, bufferPos, isoModeList[pos], Spread(isoModeList[..pos]));
    }
    assert isoModeList[..|isoModeList|] == isoModeList;
    NoNul(isoModeList);
    bufferPos := AppendText(buffer, bufferPos, ",auto", Spread(isoModeList));
    modes := buffer[..bufferPos];
  }
}
