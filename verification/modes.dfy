/** The command line's `--mode` option and the decoding settings it picks
    (transcribe/transcribe_japanese.py:111-134), and the temperature that
    `transcribe_to_srt` derives from them (lines 45-48). */
module Modes {
  import opened Wrappers

  /** Line 112: the three accepted values of `--mode`. */
  datatype Mode = Fast | Balanced | Accurate

  function ModeName(m: Mode): string {
    match m
    case Fast => "fast"
    case Balanced => "balanced"
    case Accurate => "accurate"
  }

  /** Line 112: `default="balanced"`. */
  const DefaultMode: Mode := Balanced

  /** The argument parser's check against `choices`: any other string is
      rejected before `main` looks at it. */
  function ParseMode(name: string): (r: Option<Mode>)
    ensures r.Some? ==> ModeName(r.value) == name
  {
    if name == "fast" then Some(Fast)
    else if name == "balanced" then Some(Balanced)
    else if name == "accurate" then Some(Accurate)
    else None
  }

  /** The parser accepts exactly the three names, and reads each back as
      its mode. */
  lemma ParseModeName(m: Mode)
    ensures ParseMode(ModeName(m)) == Some(m)
  {
  }

  /** The two search options handed to `transcribe_to_srt`; `None` is
      Python's `None`. */
  datatype Search = Search(beamSize: Option<nat>, bestOf: Option<nat>)

  /** Lines 123-134: the `if`/`elif` chain on the mode string, including the
      final `else` that leaves both options unset. */
  function SearchFor(name: string): (r: Search)
    ensures r.beamSize.None? || r.bestOf.None?
    ensures (r.beamSize.Some? || r.bestOf.Some?) <==> ParseMode(name).Some?
  {
    if name == "fast" then Search(None, Some(3))
    else if name == "balanced" then Search(Some(2), None)
    else if name == "accurate" then Search(Some(5), None)
    else Search(None, None)
  }

  /** Python truthiness of `beam_size` (line 45): `None` and `0` are false. */
  predicate Truthy(n: Option<nat>): (r: bool)
    ensures !r <==> n == None || n == Some(0)
  {
    n.Some? && n.value != 0
  }

  /** Lines 45-48: beam search decodes at temperature 0.0, sampling with
      `best_of` at 0.3. */
  function Temperature(beamSize: Option<nat>): (t: real)
    ensures t == 0.0 || t == 0.3
    ensures t == 0.0 <==> Truthy(beamSize)
  {
    if Truthy(beamSize) then 0.0 else 0.3
  }

  /** The settings a run decodes with: lines 122-134 feed lines 45-61. */
  datatype Decoding = Decoding(beamSize: Option<nat>, bestOf: Option<nat>, temperature: real)

  function DecodingFor(m: Mode): (d: Decoding)
    ensures d.beamSize.None? || d.bestOf.None?
    ensures d.beamSize.Some? || d.bestOf.Some?
    ensures d.temperature == 0.0 <==> d.beamSize.Some?
    ensures d.temperature == 0.3 <==> d.bestOf.Some?
  {
    var s := SearchFor(ModeName(m));
    ParseModeName(m);
    Decoding(s.beamSize, s.bestOf, Temperature(s.beamSize))
  }

  /** The help text of line 113 — "fast (no beam), balanced (beam=2),
      accurate (beam=5)" — with the candidates count and the temperature
      each mode ends up with. */
  lemma ModeTable()
    ensures DecodingFor(Fast) == Decoding(None, Some(3), 0.3)
    ensures DecodingFor(Balanced) == Decoding(Some(2), None, 0.0)
    ensures DecodingFor(Accurate) == Decoding(Some(5), None, 0.0)
    ensures DecodingFor(DefaultMode) == DecodingFor(Balanced)
  {
  }

  /** More beam means a wider search: the modes are ordered by beam width,
      with `fast` using no beam at all. */
  lemma ModesOrderedByBeam()
    ensures DecodingFor(Fast).beamSize.None?
    ensures DecodingFor(Balanced).beamSize.value < DecodingFor(Accurate).beamSize.value
  {
    ModeTable();
  }

  /** A string the parser would reject reaches the `else` branch: no beam
      and no `best_of`, so Whisper's own defaults and temperature 0.3. */
  lemma UnknownModeFallsThrough(name: string)
    requires ParseMode(name).None?
    ensures SearchFor(name) == Search(None, None)
    ensures Temperature(SearchFor(name).beamSize) == 0.3
  {
  }
}
