/**
 * The trigger table built by `reload` (src/WebGetter.php) and `_reload`
 * (src/Erebot/Module/WebGetter.php): entries `1, 2, …` are read while
 * `<i>.trigger` exists; each needs `<i>.url` and `<i>.format`, its trimmed
 * trigger must be accepted by the trigger registry, and the table maps the
 * lower-cased trigger to i. The first failure throws, leaving the entries
 * added so far in the table.
 */
module Triggers {
  import opened Wrappers
  import opened PhpStrings
  import opened Config

  /** The exception `reload` throws. */
  datatype ReloadError =
    | MissingUrl(index: nat)
    | MissingFormat(index: nat)
    | NotRegistered(index: nat, trigger: string)

  function ErrorMessage(e: ReloadError): string {
    match e
    case MissingUrl(i) => "Missing URL #" + Dec(i)
    case MissingFormat(i) => "Missing format #" + Dec(i)
    case NotRegistered(i, t) => "Could not register trigger #" + Dec(i) + " (" + t + ")"
  }

  /** Whether the trigger registry takes entry i's trigger; earlier registrations are part of the registry's state. */
  type Registry = (nat, string) -> bool

  function TriggerKey(i: nat): string {
    KeyOf(Trigger, i)
  }

  function UrlKey(i: nat): string {
    Dec(i) + ".url"
  }

  function FormatKey(i: nat): string {
    Dec(i) + ".format"
  }

  /** Entries 1 .. j-1 exist. */
  ghost predicate Entries(cfg: Config, j: nat) {
    forall i :: 1 <= i < j ==> TriggerKey(i) in cfg
  }

  /** The n such that entries 1 .. n-1 exist and entry n does not. */
  function Count(cfg: Config): (n: nat)
    ensures n >= 1 && TriggerKey(n) !in cfg && Entries(cfg, n)
  {
    var n := RunEnd(cfg, Trigger, 1);
    assert forall i | 1 <= i < n :: TriggerKey(i) in cfg by {
      forall i | 1 <= i < n ensures TriggerKey(i) in cfg {
        assert Present(cfg, Trigger, i);
      }
    }
    n
  }

  function TriggerText(cfg: Config, i: nat): string
    requires TriggerKey(i) in cfg
  {
    Trim(cfg[TriggerKey(i)])
  }

  /** The table key for entry i. */
  function Name(cfg: Config, i: nat): string
    requires TriggerKey(i) in cfg
  {
    StrToLower(TriggerText(cfg, i))
  }

  /** The checks on entry i, in the order the code makes them. */
  function Check(cfg: Config, registry: Registry, i: nat): Option<ReloadError>
    requires TriggerKey(i) in cfg
  {
    if UrlKey(i) !in cfg then Some(MissingUrl(i))
    else if FormatKey(i) !in cfg then Some(MissingFormat(i))
    else if !registry(i, TriggerText(cfg, i)) then Some(NotRegistered(i, TriggerText(cfg, i)))
    else None
  }

  datatype Scan = Scan(table: map<string, nat>, error: Option<ReloadError>)

  /** The state after entries 1 .. j-1 have been handled. */
  function ScanUpTo(cfg: Config, registry: Registry, j: nat): Scan
    requires 1 <= j && Entries(cfg, j)
    decreases j
  {
    if j == 1 then Scan(map[], None)
    else
      var s := ScanUpTo(cfg, registry, j - 1);
      if s.error.Some? then s
      else match Check(cfg, registry, j - 1)
        case Some(e) => Scan(s.table, Some(e))
        case None => Scan(s.table[Name(cfg, j - 1) := j - 1], None)
  }

  /** What `reload` leaves: the table and the exception, if any. */
  function ReloadResult(cfg: Config, registry: Registry): Scan {
    ScanUpTo(cfg, registry, Count(cfg))
  }

  lemma {:induction false} ErrorPersists(cfg: Config, registry: Registry, j: nat, k: nat)
    requires 1 <= j <= k && Entries(cfg, k)
    requires ScanUpTo(cfg, registry, j).error.Some?
    ensures ScanUpTo(cfg, registry, k) == ScanUpTo(cfg, registry, j)
    decreases k - j
  {
    if j < k {
      ErrorPersists(cfg, registry, j, k - 1);
    }
  }

  /** The scan itself. */
  method ScanTriggers(cfg: Config, registry: Registry) returns (table: map<string, nat>, error: Option<ReloadError>)
    ensures Scan(table, error) == ReloadResult(cfg, registry)
  {
    ghost var n := Count(cfg);
    table := map[];
    error := None;
    var index := 1;
    while TriggerKey(index) in cfg
      invariant 1 <= index <= n
      invariant Scan(table, None) == ScanUpTo(cfg, registry, index)
      decreases n - index
    {
      assert index != n;
      if UrlKey(index) !in cfg {
        error := Some(MissingUrl(index));
        ErrorPersists(cfg, registry, index + 1, n);
        return;
      }
      if FormatKey(index) !in cfg {
        error := Some(MissingFormat(index));
        ErrorPersists(cfg, registry, index + 1, n);
        return;
      }
      var trigger := TriggerText(cfg, index);
      if !registry(index, trigger) {
        error := Some(NotRegistered(index, trigger));
        ErrorPersists(cfg, registry, index + 1, n);
        return;
      }
      table := table[Name(cfg, index) := index];
      index := index + 1;
    }
  }

  // ------------------------------------------------------------- properties

  /** Every entry 1 .. j-1 is filed under its name at an index at least its own, and every index filed is such an entry under its own name, the last one with that name. */
  ghost predicate TableOf(cfg: Config, table: map<string, nat>, j: nat)
    requires Entries(cfg, j)
  {
    && (forall i :: 1 <= i < j ==> Name(cfg, i) in table && i <= table[Name(cfg, i)])
    && (forall k :: k in table ==> 1 <= table[k] < j && Name(cfg, table[k]) == k)
  }

  ghost predicate ChecksPass(cfg: Config, registry: Registry, j: nat)
    requires Entries(cfg, j)
  {
    forall i :: 1 <= i < j ==> Check(cfg, registry, i).None?
  }

  /** The scan is free of errors exactly while every check passes. */
  lemma {:induction false} ScanOkIff(cfg: Config, registry: Registry, j: nat)
    requires 1 <= j && Entries(cfg, j)
    ensures ScanUpTo(cfg, registry, j).error.None? <==> ChecksPass(cfg, registry, j)
    decreases j
  {
    if j > 1 {
      ScanOkIff(cfg, registry, j - 1);
    }
  }

  /** Without an error so far, the table is the table of entries 1 .. j-1. */
  lemma {:induction false} ScanTable(cfg: Config, registry: Registry, j: nat)
    requires 1 <= j && Entries(cfg, j)
    requires ScanUpTo(cfg, registry, j).error.None?
    ensures TableOf(cfg, ScanUpTo(cfg, registry, j).table, j)
    decreases j
  {
    if j > 1 {
      var s := ScanUpTo(cfg, registry, j - 1);
      ScanTable(cfg, registry, j - 1);
      TableStep(cfg, s.table, j - 1);
    }
  }

  /** Filing entry j under its name extends the table of 1 .. j-1 to the table of 1 .. j. */
  lemma TableStep(cfg: Config, table: map<string, nat>, j: nat)
    requires 1 <= j && Entries(cfg, j + 1)
    requires TableOf(cfg, table, j)
    ensures TableOf(cfg, table[Name(cfg, j) := j], j + 1)
  {
    var t := table[Name(cfg, j) := j];
    forall i | 1 <= i < j + 1 ensures Name(cfg, i) in t && i <= t[Name(cfg, i)] {
      if i < j && Name(cfg, i) != Name(cfg, j) {
        assert Name(cfg, i) in table;
      }
    }
  }

  /** An error names the first failing entry; the table stays as it was before that entry. */
  lemma {:induction false} ScanError(cfg: Config, registry: Registry, j: nat)
    requires 1 <= j && Entries(cfg, j)
    requires ScanUpTo(cfg, registry, j).error.Some?
    ensures var e := ScanUpTo(cfg, registry, j).error.value;
      && 1 <= e.index < j
      && Check(cfg, registry, e.index) == Some(e)
      && ScanUpTo(cfg, registry, e.index).error.None?
      && ScanUpTo(cfg, registry, j).table == ScanUpTo(cfg, registry, e.index).table
    decreases j
  {
    var s := ScanUpTo(cfg, registry, j - 1);
    if s.error.Some? {
      ScanError(cfg, registry, j - 1);
    }
  }

  /** `reload` succeeds exactly when every entry has a URL and a format and its trigger registers. */
  lemma ReloadSucceedsIff(cfg: Config, registry: Registry)
    ensures ReloadResult(cfg, registry).error.None? <==>
      forall i :: 1 <= i < Count(cfg) ==> UrlKey(i) in cfg && FormatKey(i) in cfg && registry(i, TriggerText(cfg, i))
  {
    var n := Count(cfg);
    ScanOkIff(cfg, registry, n);
    forall i | 1 <= i < n
      ensures Check(cfg, registry, i).None? <==> UrlKey(i) in cfg && FormatKey(i) in cfg && registry(i, TriggerText(cfg, i))
    {
    }
  }

  /**
   * After a successful `reload`, the table holds exactly the entries' lower-cased
   * trimmed triggers, each mapped to the last entry carrying it.
   */
  lemma ReloadTable(cfg: Config, registry: Registry)
    requires ReloadResult(cfg, registry).error.None?
    ensures forall i :: 1 <= i < Count(cfg) ==>
      Name(cfg, i) in ReloadResult(cfg, registry).table && i <= ReloadResult(cfg, registry).table[Name(cfg, i)]
    ensures forall k :: k in ReloadResult(cfg, registry).table ==>
      var i := ReloadResult(cfg, registry).table[k];
      1 <= i < Count(cfg) && Name(cfg, i) == k
  {
    ScanTable(cfg, registry, Count(cfg));
  }

  /**
   * A failed `reload` reports the first failing entry with the first check it
   * fails, and keeps the table built from the entries before it.
   */
  lemma ReloadFirstError(cfg: Config, registry: Registry)
    requires ReloadResult(cfg, registry).error.Some?
    ensures var e := ReloadResult(cfg, registry).error.value;
      && 1 <= e.index < Count(cfg)
      && Check(cfg, registry, e.index) == Some(e)
      && (forall i :: 1 <= i < e.index ==> Check(cfg, registry, i).None?)
      && TableOf(cfg, ReloadResult(cfg, registry).table, e.index)
  {
    var n := Count(cfg);
    ScanError(cfg, registry, n);
    var e := ReloadResult(cfg, registry).error.value;
    ScanOkIff(cfg, registry, e.index);
    ScanTable(cfg, registry, e.index);
  }
}
