/** The configuration in two flash slots and a selector (esp_mqtt/modules/config.c), and
    what it survives when power fails. */
module FlashConfig {
  import opened Octets
  import opened SpiFlash

  const CFG_HOLDER: nat := 0x00FF55A4
  const CFG_LOCATION: nat := 0x3C
  const SYSCFG_SIZE: nat := 292
  const SAVE_FLAG_SIZE: nat := 4

  const SLOT0: nat := CFG_LOCATION + 0
  const SLOT1: nat := CFG_LOCATION + 1
  const SELECTOR: nat := CFG_LOCATION + 3

  type Config = seq<byte>

  ghost predicate Usable(f: Sectors) {
    Whole(f) && SLOT0 in f && SLOT1 in f && SELECTOR in f
  }

  /** The slot that CFG_Load reads. An erased selector counts as slot 1. */
  function Selected(f: Sectors): (cfg: Config)
    requires Usable(f)
    ensures |cfg| == SYSCFG_SIZE
  {
    if f[SELECTOR][0] == 0 then f[SLOT0][..SYSCFG_SIZE] else f[SLOT1][..SYSCFG_SIZE]
  }

  /** The flash commands of CFG_Save, in order. */
  function SaveProgram(f: Sectors, cfg: Config): (cs: seq<Command>)
    requires Usable(f)
    ensures |cs| == 4 && (|cfg| == SYSCFG_SIZE ==> forall i :: 0 <= i < 4 ==> Applies(f, cs[i]))
  {
    var flag := f[SELECTOR][..SAVE_FLAG_SIZE];
    if flag[0] == 0 then [Erase(SLOT1), Write(SLOT1, cfg), Erase(SELECTOR), Write(SELECTOR, flag[0 := 1])]
    else [Erase(SLOT0), Write(SLOT0, cfg), Erase(SELECTOR), Write(SELECTOR, flag[0 := 0])]
  }

  /** The sectors and the selector values. The slot that is not selected is written first. */
  lemma SaveCommands(f: Sectors, cfg: Config)
    requires Usable(f)
    ensures var (slot, value) := (if f[0x3F][0] == 0 then 0x3D else 0x3C, if f[0x3F][0] == 0 then 1 else 0);
            SaveProgram(f, cfg)
            == [Erase(slot), Write(slot, cfg), Erase(0x3F), Write(0x3F, [value] + f[0x3F][1..4])]
    ensures Selected(f) == f[if f[0x3F][0] == 0 then 0x3C else 0x3D][..292]
  {
    var flag := f[0x3F][..4];
    assert flag[0 := 0] == [0] + f[0x3F][1..4] && flag[0 := 1] == [1] + f[0x3F][1..4];
  }

  /** The flash after the first `k` commands of a program. */
  function AfterFirst(f: Sectors, cs: seq<Command>, k: nat): (r: Sectors)
    requires Usable(f) && k <= |cs| && forall i :: 0 <= i < |cs| ==> Applies(f, cs[i])
    ensures Usable(r) && r.Keys == f.Keys
  {
    if k == 0 then f else After(AfterFirst(f, cs, k - 1), cs[k - 1])
  }

  function Saved(f: Sectors, cfg: Config): (r: Sectors)
    requires Usable(f) && |cfg| == SYSCFG_SIZE
    ensures Usable(r) && r.Keys == f.Keys
  {
    AfterFirst(f, SaveProgram(f, cfg), 4)
  }

  /** What a command can leave behind when power fails during it: anything in a slot; in
      the selector some of the bits that it was to change. */
  ghost predicate Interrupted(f: Sectors, c: Command, g: Sectors)
    requires Usable(f) && Applies(f, c)
  {
    && Usable(g) && g.Keys == f.Keys
    && (forall s :: s in f && s != c.sector ==> g[s] == f[s])
    && (c.sector == SELECTOR ==>
          forall i :: 0 <= i < SPI_FLASH_SEC_SIZE ==> Between(f[SELECTOR][i], g[SELECTOR][i], After(f, c)[SELECTOR][i]))
  }

  /** Power fails during step `k` of saving `cfg`. */
  ghost predicate Crash(f: Sectors, cfg: Config, k: nat, g: Sectors)
    requires Usable(f) && |cfg| == SYSCFG_SIZE
  {
    k < 4 && Interrupted(AfterFirst(f, SaveProgram(f, cfg), k), SaveProgram(f, cfg)[k], g)
  }

  // ----- one save

  lemma Prefixes(f: Sectors, cs: seq<Command>)
    requires Usable(f) && |cs| == 4 && forall i :: 0 <= i < |cs| ==> Applies(f, cs[i])
    ensures AfterFirst(f, cs, 2) == After(After(f, cs[0]), cs[1])
    ensures AfterFirst(f, cs, 4) == After(After(AfterFirst(f, cs, 2), cs[2]), cs[3])
  {
    hide After;
    assert AfterFirst(f, cs, 0) == f && AfterFirst(f, cs, 1) == After(f, cs[0]);
    assert AfterFirst(f, cs, 3) == After(AfterFirst(f, cs, 2), cs[2]);
  }

  /** A sector that commands `j` to `k` do not name keeps its contents. */
  lemma {:induction false} Untouched(f: Sectors, cs: seq<Command>, j: nat, k: nat, s: nat)
    requires Usable(f) && j <= k <= |cs| && forall i :: 0 <= i < |cs| ==> Applies(f, cs[i])
    requires s in f && forall i :: j <= i < k ==> cs[i].sector != s
    ensures AfterFirst(f, cs, k)[s] == AfterFirst(f, cs, j)[s]
    decreases k - j
  {
    hide After;
    if j < k {
      Untouched(f, cs, j, k - 1, s);
    }
  }

  /** Erasing and writing a sector puts the data there. */
  lemma ErasedAndWritten(f: Sectors, cs: seq<Command>, j: nat)
    requires Usable(f) && j + 2 <= |cs| && forall i :: 0 <= i < |cs| ==> Applies(f, cs[i])
    requires cs[j].Erase? && cs[j + 1].Write? && cs[j + 1] == Write(cs[j].sector, cs[j + 1].data)
    ensures AfterFirst(f, cs, j + 1)[cs[j].sector] == Blank()
    ensures AfterFirst(f, cs, j + 2)[cs[j].sector][..|cs[j + 1].data|] == cs[j + 1].data
  {
    var g := AfterFirst(f, cs, j);
    assert AfterFirst(f, cs, j + 1) == After(g, cs[j]);
    assert AfterFirst(f, cs, j + 2) == After(After(g, cs[j]), cs[j + 1]);
    EraseThenWrite(g, cs[j].sector, cs[j + 1].data);
  }

  /** The slot to be written, and the value of the selector once it is complete. */
  function Target(f: Sectors): (nat, byte)
    requires Usable(f)
  {
    if f[SELECTOR][0] == 0 then (SLOT1, 1) else (SLOT0, 0)
  }

  /** The slot being written is complete before the selector is touched, and no other
      slot changes. */
  lemma SlotSteps(f: Sectors, cfg: Config, k: nat)
    requires Usable(f) && |cfg| == SYSCFG_SIZE && k <= 4
    ensures var g := AfterFirst(f, SaveProgram(f, cfg), k); var target := Target(f).0;
            && g[SLOT0 + SLOT1 - target] == f[SLOT0 + SLOT1 - target]
            && (k >= 2 ==> g[target][..SYSCFG_SIZE] == cfg)
  {
    var cs := SaveProgram(f, cfg);
    assert AfterFirst(f, cs, 0) == f;
    hide After, AfterFirst;
    var target := Target(f).0;
    Untouched(f, cs, 0, k, SLOT0 + SLOT1 - target);
    if k >= 2 {
      ErasedAndWritten(f, cs, 0);
      Untouched(f, cs, 2, k, target);
    }
  }

  lemma SelectorSteps(f: Sectors, cfg: Config, k: nat)
    requires Usable(f) && |cfg| == SYSCFG_SIZE && k <= 4
    ensures var g := AfterFirst(f, SaveProgram(f, cfg), k);
            && (k <= 2 ==> g[SELECTOR] == f[SELECTOR])
            && (k == 3 ==> g[SELECTOR] == Blank())
            && (k == 4 ==> g[SELECTOR][0] == Target(f).1)
  {
    var cs := SaveProgram(f, cfg);
    assert AfterFirst(f, cs, 0) == f;
    hide After, AfterFirst;
    var g := AfterFirst(f, cs, k);
    if k <= 2 {
      Untouched(f, cs, 0, k, SELECTOR);
    } else {
      ErasedAndWritten(f, cs, 2);
      if k == 4 {
        assert g[SELECTOR][0] == g[SELECTOR][..SAVE_FLAG_SIZE][0];
      }
    }
  }

  /** A save that runs to its end is the one that is loaded next. */
  lemma SaveCommits(f: Sectors, cfg: Config)
    requires Usable(f) && |cfg| == SYSCFG_SIZE
    ensures Selected(Saved(f, cfg)) == cfg
  {
    hide AfterFirst;
    SlotSteps(f, cfg, 4);
    SelectorSteps(f, cfg, 4);
  }

  /** Power fails during a save: the next load sees the old configuration or the new
      one, complete. It is the old one while the new slot is being filled. */
  lemma CrashIsAtomic(f: Sectors, cfg: Config, k: nat, g: Sectors)
    requires Usable(f) && |cfg| == SYSCFG_SIZE && Crash(f, cfg, k, g)
    ensures Selected(g) == Selected(f) || Selected(g) == cfg
    ensures k < 2 ==> Selected(g) == Selected(f)
  {
    hide AfterFirst, And;
    SlotSteps(f, cfg, k);
    SelectorBits(f, cfg, k, g);
  }

  lemma BetweenIsNonzero(a: byte, b: byte, c: byte)
    requires Between(a, b, c) && a != 0 && c != 0
    ensures b != 0
  {
  }

  /** Wherever power fails, the selector still names a complete slot. */
  lemma SelectorBits(f: Sectors, cfg: Config, k: nat, g: Sectors)
    requires Usable(f) && |cfg| == SYSCFG_SIZE && Crash(f, cfg, k, g)
    ensures k < 2 ==> g[SELECTOR] == f[SELECTOR]
    ensures k == 2 && f[SELECTOR][0] != 0 ==> g[SELECTOR][0] != 0
    ensures k == 3 && f[SELECTOR][0] == 0 ==> g[SELECTOR][0] != 0
  {
    hide AfterFirst, And, Between;
    var h := AfterFirst(f, SaveProgram(f, cfg), k);
    SelectorSteps(f, cfg, k);
    if k >= 2 {
      var c := SaveProgram(f, cfg)[k];
      var (x, y, z) := (h[SELECTOR][0], g[SELECTOR][0], After(h, c)[SELECTOR][0]);
      assert Between(x, y, z);
      if k == 3 {
        AndOnes(255, 1, 8);
      }
      if x != 0 && z != 0 {
        BetweenIsNonzero(x, y, z);
      }
    }
  }

  // ----- runs of saves and power failures

  datatype Attempt =
    | Finished(cfg: Config)
    | Cut(cfg: Config, step: nat, left: Sectors)

  /** `states[i]` is the flash before attempt `i`. */
  ghost predicate IsRun(states: seq<Sectors>, attempts: seq<Attempt>) {
    && |states| == |attempts| + 1
    && (forall i :: 0 <= i < |states| ==> Usable(states[i]))
    && forall i :: 0 <= i < |attempts| ==> Attempted(states[i], attempts[i], states[i + 1])
  }

  ghost predicate Attempted(f: Sectors, a: Attempt, g: Sectors)
    requires Usable(f)
  {
    && |a.cfg| == SYSCFG_SIZE
    && match a
       case Finished(cfg) => g == Saved(f, cfg)
       case Cut(cfg, step, left) => g == left && Crash(f, cfg, step, left)
  }

  /** What may be loaded after a run: the configuration of the last save that finished,
      or the one at the start if none did, or that of a later save that power cut. */
  function Loadable(start: Config, attempts: seq<Attempt>): seq<Config> {
    if attempts == [] then [start] else
      var a := attempts[|attempts| - 1];
      if a.Finished? then [a.cfg] else Loadable(start, attempts[..|attempts| - 1]) + [a.cfg]
  }

  lemma {:induction false} NothingIsLost(states: seq<Sectors>, attempts: seq<Attempt>)
    requires IsRun(states, attempts)
    ensures Selected(states[|attempts|]) in Loadable(Selected(states[0]), attempts)
    decreases |attempts|
  {
    hide Crash, Selected, Saved;
    if attempts != [] {
      var n := |attempts| - 1;
      NothingIsLost(states[..n + 1], attempts[..n]);
      assert Attempted(states[n], attempts[n], states[n + 1]);
      match attempts[n] {
        case Finished(cfg) => SaveCommits(states[n], cfg);
        case Cut(cfg, step, left) => CrashIsAtomic(states[n], cfg, step, left);
      }
    }
  }

  // ----- the code

  function Holder(cfg: Config): nat
    requires |cfg| == SYSCFG_SIZE
  {
    FromLe32(cfg[..4])
  }

  class ConfigStore {
    const flash: Flash
    var sysCfg: Config
    var saveFlag: seq<byte>

    ghost predicate Valid()
      reads this, flash
    {
      flash.Valid() && Usable(flash.sectors) && |sysCfg| == SYSCFG_SIZE && |saveFlag| == SAVE_FLAG_SIZE
    }

    constructor (flash: Flash)
      requires flash.Valid() && Usable(flash.sectors)
      ensures Valid() && this.flash == flash
    {
      this.flash := flash;
      sysCfg := seq(SYSCFG_SIZE, _ => 0);
      saveFlag := seq(SAVE_FLAG_SIZE, _ => 0);
    }

    /** Issues the commands of the save program, one after the other. */
    method Save()
      requires Valid()
      modifies this, flash
      ensures Valid() && sysCfg == old(sysCfg)
      ensures flash.log == old(flash.log) + SaveProgram(old(flash.sectors), sysCfg)
      ensures flash.sectors == Saved(old(flash.sectors), sysCfg)
    {
      hide After, Applies;
      saveFlag := flash.ReadSector(CFG_LOCATION + 3, 0, SAVE_FLAG_SIZE);
      ghost var f, cs := flash.sectors, SaveProgram(flash.sectors, sysCfg);
      Prefixes(f, cs);
      if saveFlag[0] == 0 {
        Replace(CFG_LOCATION + 1, sysCfg);
        saveFlag := saveFlag[0 := 1];
      } else {
        Replace(CFG_LOCATION + 0, sysCfg);
        saveFlag := saveFlag[0 := 0];
      }
      Replace(CFG_LOCATION + 3, saveFlag);
    }

    /** Erases a sector and writes it. */
    method Replace(s: nat, data: seq<byte>)
      requires Valid() && s in flash.sectors && |data| <= SPI_FLASH_SEC_SIZE
      modifies flash
      ensures Valid() && flash.sectors == After(After(old(flash.sectors), Erase(s)), Write(s, data))
      ensures flash.log == old(flash.log) + [Erase(s), Write(s, data)]
    {
      hide After;
      flash.EraseSector(s);
      flash.WriteSector(s, data);
    }

    /** Loads the selected configuration, or saves and uses `defaults` if it carries
        another holder value. What is in use afterwards is also what is selected. */
    method Load(defaults: Config)
      requires Valid() && |defaults| == SYSCFG_SIZE && Holder(defaults) == CFG_HOLDER
      modifies this, flash
      ensures Valid() && Holder(sysCfg) == CFG_HOLDER
      ensures var was := old(Selected(flash.sectors));
              if Holder(was) == CFG_HOLDER then sysCfg == was && flash.sectors == old(flash.sectors)
              else sysCfg == defaults && flash.sectors == Saved(old(flash.sectors), defaults)
      ensures Selected(flash.sectors) == sysCfg
    {
      saveFlag := flash.ReadSector(CFG_LOCATION + 3, 0, SAVE_FLAG_SIZE);
      if saveFlag[0] == 0 {
        sysCfg := flash.ReadSector(CFG_LOCATION + 0, 0, SYSCFG_SIZE);
      } else {
        sysCfg := flash.ReadSector(CFG_LOCATION + 1, 0, SYSCFG_SIZE);
      }
      if Holder(sysCfg) != CFG_HOLDER {
        sysCfg := defaults;
        SaveCommits(flash.sectors, defaults);
        Save();
      }
    }
  }
}
