/**
 * The module's configuration as seen by the code: a set of parameter names,
 * each with a string value (`getParamsNames`, `parseString`, `parseInt`).
 * Numbered entries are read as contiguous runs `1, 2, …` that stop at the
 * first missing number.
 */
module Config {
  import opened Wrappers
  import opened PhpStrings

  type Config = map<string, string>

  /** A numbered family of parameters scanned for a contiguous run. */
  datatype Family =
    | Trigger                            // `<i>.trigger`
    | Pair(index: nat, section: string)  // `<index>.<section>.<i>.name` with `.value`
    | Var(index: nat)                    // `<index>.vars.<i>`

  function Prefix(fam: Family): string {
    match fam
    case Trigger => ""
    case Pair(index, section) => Dec(index) + "." + section + "."
    case Var(index) => Dec(index) + ".vars."
  }

  function Suffix(fam: Family): string {
    match fam
    case Trigger => ".trigger"
    case Pair(_, _) => ".name"
    case Var(_) => ""
  }

  /** The parameter whose presence makes number `i` part of the run. */
  function KeyOf(fam: Family, i: nat): string {
    Prefix(fam) + Dec(i) + Suffix(fam)
  }

  /** `<index>.<section>.<i>.value`, the partner of a pair's name. */
  function ValueKey(index: nat, section: string, i: nat): string {
    Dec(index) + "." + section + "." + Dec(i) + ".value"
  }

  /** The loop condition of the scan over `fam` at number `i`. */
  predicate Present(cfg: Config, fam: Family, i: nat) {
    KeyOf(fam, i) in cfg && (fam.Pair? ==> ValueKey(fam.index, fam.section, i) in cfg)
  }

  ghost function Below(fam: Family, j: nat): set<string> {
    set i | 1 <= i < j :: KeyOf(fam, i)
  }

  lemma BelowStep(cfg: Config, fam: Family, j: nat)
    requires j >= 1 && Present(cfg, fam, j)
    ensures cfg.Keys - Below(fam, j + 1) < cfg.Keys - Below(fam, j)
  {
    assert Below(fam, j + 1) == Below(fam, j) + {KeyOf(fam, j)};
    if KeyOf(fam, j) in Below(fam, j) {
      var i :| 1 <= i < j && KeyOf(fam, i) == KeyOf(fam, j);
      DecInContext(Prefix(fam), i, j, Suffix(fam));
    }
    assert KeyOf(fam, j) in cfg.Keys - Below(fam, j);
  }

  /** The first number from `j` on that is not present: the run is `[j, RunEnd)`. */
  function RunEnd(cfg: Config, fam: Family, j: nat): (n: nat)
    requires j >= 1
    ensures j <= n && !Present(cfg, fam, n)
    ensures forall i :: j <= i < n ==> Present(cfg, fam, i)
    decreases cfg.Keys - Below(fam, j)
  {
    if !Present(cfg, fam, j) then j
    else
      BelowStep(cfg, fam, j);
      RunEnd(cfg, fam, j + 1)
  }

  /** The run that starts at 1 ends exactly at the first missing number. */
  lemma RunIsFirstGap(cfg: Config, fam: Family, n: nat)
    requires n >= 1 && !Present(cfg, fam, n)
    requires forall i :: 1 <= i < n ==> Present(cfg, fam, i)
    ensures RunEnd(cfg, fam, 1) == n
  {
    var m := RunEnd(cfg, fam, 1);
  }

  /** Why reading the configuration failed (Erebot throws). */
  datatype ConfigError = MissingParam(name: string) | NotAnInteger(name: string)

  /** `parseString($name)`: the value, or a failure when the parameter is absent. */
  function ParseString(cfg: Config, name: string): (r: Result<string, ConfigError>)
    ensures r.Ok? <==> name in cfg
    ensures r.Ok? ==> r.value == cfg[name]
  {
    if name in cfg then Ok(cfg[name]) else Err(MissingParam(name))
  }

  /** The integer a decimal parameter denotes, with an optional leading minus. */
  function IntValue(s: string): Option<int> {
    if |s| >= 1 && AllDigits(s) then Some(DigitsValue(s))
    else if |s| >= 2 && s[0] == '-' && AllDigits(s[1..]) then Some(0 - DigitsValue(s[1..]) as int)
    else None
  }

  /** `parseInt($name, $default)`: the default when absent, a failure when not an integer. */
  function ParseInt(cfg: Config, name: string, default: int): (r: Result<int, ConfigError>)
    ensures name !in cfg ==> r == Ok(default)
    ensures name in cfg && IntValue(cfg[name]).None? ==> r == Err(NotAnInteger(name))
    ensures name in cfg && IntValue(cfg[name]).Some? ==> r == Ok(IntValue(cfg[name]).value)
  {
    if name !in cfg then Ok(default)
    else match IntValue(cfg[name])
      case None => Err(NotAnInteger(name))
      case Some(v) => Ok(v)
  }

  lemma IntValueDec(n: nat)
    ensures IntValue(Dec(n)) == Some(n)
  {
    DecValue(n);
  }
}
