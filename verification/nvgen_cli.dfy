/** The option checks of nvgen's `main` (apps/nvgen.c:607-720). Only the
    options that are checked are modelled with their values. `-p` and `-u`
    are stored unchecked, and only whether the port and the NVMe device were
    given matters; `-P`, `-i` and `-t` cannot refuse the command line and
    are not modelled. `count_online_cpus` is an oracle. */
module NvgenCli {
  import opened Machine
  import opened LbaWalk
  import NU = NvgenUnvme

  const MAX_CPU_NUM: nat := 32
  const MAX_BATCH_NUM: nat := 64

  datatype Mode = Tx | Rx

  /** One option with the value `atoi` (or `sscanf`) gave it. `LbaEndOpt`
      holds `None` when `sscanf(optarg, "0x%lx", ...)` matched nothing. */
  datatype Opt = PortOpt | NvmeOpt | ModeOpt(arg: string) | NcpusOpt(ncpus: int)
               | BatchOpt(batch: int) | LbaEndOpt(lbaEnd: Option<nat>) | NvbatchOpt(nvbatch: int)
               | WalkOpt(arg: string) | Unknown

  /** The parsed `struct nvgen`, the fields the checks touch. */
  datatype Params = Params(mode: Mode, ncpus: int, batch: int, lbaEnd: nat, nvbatch: int,
                           walk: int, port: bool, nvme: bool)

  /** The values `main` sets before the option loop (apps/nvgen.c:616-623):
      TX, one CPU, batch 1, last LBA 0xF0000, nvbatch 1, and the zeroed walk,
      which is SEQ. */
  const DEFAULTS := Params(Tx, 1, 1, 0xF0000, 1, 0, false, false)

  /** One option (apps/nvgen.c:625-702); `None` is the `return -1`. Only
      upper bounds are checked. `Unknown` is `-h` or a letter `getopt` does
      not know, which print the usage and stop. */
  function ApplyOpt(p: Params, o: Opt): (r: Option<Params>)
  {
    match o
    case PortOpt => Some(p.(port := true))
    case NvmeOpt => Some(p.(nvme := true))
    case ModeOpt(arg) =>
      if HasPrefix("tx", arg) then Some(p.(mode := Tx))
      else if HasPrefix("rx", arg) then Some(p.(mode := Rx))
      else None
    case NcpusOpt(v) => if v > MAX_CPU_NUM then None else Some(p.(ncpus := v))
    case BatchOpt(v) => if v > MAX_BATCH_NUM then None else Some(p.(batch := v))
    case LbaEndOpt(v) => if v.None? then None else Some(p.(lbaEnd := v.value))
    case NvbatchOpt(v) => if v > NU.MAX_NVBATCH then None else Some(p.(nvbatch := v))
    case WalkOpt(arg) =>
      if HasPrefix("seq", arg) then Some(p.(walk := 0))
      else if HasPrefix("random", arg) then Some(p.(walk := 1))
      else None
    case Unknown => None
  }

  /** Does the option loop accept this option? */
  predicate OptOk(o: Opt)
  {
    match o
    case ModeOpt(arg) => HasPrefix("tx", arg) || HasPrefix("rx", arg)
    case NcpusOpt(v) => v <= MAX_CPU_NUM
    case BatchOpt(v) => v <= MAX_BATCH_NUM
    case LbaEndOpt(v) => v.Some?
    case NvbatchOpt(v) => v <= NU.MAX_NVBATCH
    case WalkOpt(arg) => HasPrefix("seq", arg) || HasPrefix("random", arg)
    case Unknown => false
    case _ => true
  }

  /** The option loop, in command-line order. */
  function ParseOpts(p: Params, opts: seq<Opt>): (r: Option<Params>)
    decreases |opts|
  {
    if opts == [] then Some(p)
    else
      match ApplyOpt(p, opts[0])
      case None => None
      case Some(p') => ParseOpts(p', opts[1..])
  }

  /** What the option loop guarantees: the upper bounds of the three
      arrays the counts index, and a walk that `next_lba` knows. */
  predicate Bounded(p: Params)
  {
    p.ncpus <= MAX_CPU_NUM && p.batch <= MAX_BATCH_NUM && p.nvbatch <= NU.MAX_NVBATCH
    && NvgenWalk(p.walk) in {Seq, Random}
  }

  /** The checks after the loop (apps/nvgen.c:704-720): a port and an NVMe
      device are required, twice the CPU count must not exceed the online
      CPUs, and RX mode then takes every online CPU. */
  function Finish(p: Params, online: int): (r: Option<Params>)
  {
    if !p.port || !p.nvme || p.ncpus * 2 > online then None
    else if p.mode == Rx then Some(p.(ncpus := online))
    else Some(p)
  }

  function Parse(opts: seq<Opt>, online: int): (r: Option<Params>)
  {
    match ParseOpts(DEFAULTS, opts)
    case None => None
    case Some(p) => Finish(p, online)
  }

  /** The option loop refuses the command line exactly when one of its
      options fails its check, and what it accepts stays within the bounds,
      starting from parameters that are. */
  lemma {:induction false} ParseOptsChecks(p: Params, opts: seq<Opt>)
    requires Bounded(p)
    ensures ParseOpts(p, opts).None? <==> exists i :: 0 <= i < |opts| && !OptOk(opts[i])
    ensures ParseOpts(p, opts).Some? ==> Bounded(ParseOpts(p, opts).value)
    decreases |opts|
  {
    if opts != [] {
      var r := ApplyOpt(p, opts[0]);
      if r.Some? {
        ParseOptsChecks(r.value, opts[1..]);
        if exists i :: 0 <= i < |opts| && !OptOk(opts[i]) {
          var i :| 0 <= i < |opts| && !OptOk(opts[i]);
          assert opts[1..][i - 1] == opts[i];
        }
        forall i | 0 <= i < |opts[1..]| && !OptOk(opts[1..][i])
          ensures exists k :: 0 <= k < |opts| && !OptOk(opts[k])
        {
          assert opts[i + 1] == opts[1..][i];
        }
      }
    }
  }

  /** The whole command line is accepted exactly when every option passes,
      the port and the device are given and the CPU count fits twice into
      the online CPUs. An accepted TX run has `2 * ncpus <= online`; an RX
      run has all online CPUs, which can be more than the 32 thread slots. */
  lemma ParseAccepts(opts: seq<Opt>, online: int)
    ensures ParseOpts(DEFAULTS, opts).Some? <==> forall i :: 0 <= i < |opts| ==> OptOk(opts[i])
    ensures var p := ParseOpts(DEFAULTS, opts);
            Parse(opts, online).Some? <==>
              p.Some? && p.value.port && p.value.nvme && p.value.ncpus * 2 <= online
    ensures var r := Parse(opts, online);
            r.Some? ==> r.value.batch <= MAX_BATCH_NUM && r.value.nvbatch <= NU.MAX_NVBATCH
                        && NvgenWalk(r.value.walk) in {Seq, Random}
                        && (r.value.mode == Tx ==> r.value.ncpus <= MAX_CPU_NUM && r.value.ncpus * 2 <= online)
                        && (r.value.mode == Rx ==> r.value.ncpus == online)
  {
    ParseOptsChecks(DEFAULTS, opts);
  }

  /** Only upper bounds are checked: a negative `-n` passes every check and
      leaves a negative CPU count, and a negative `-B` passes and later
      leaves the reader's batch bounded by ring space alone. */
  lemma NegativeCountsPass()
    ensures Parse([PortOpt, NvmeOpt, NcpusOpt(-1)], 2) == Some(DEFAULTS.(port := true, nvme := true, ncpus := -1))
    ensures Parse([PortOpt, NvmeOpt, NvbatchOpt(-1)], 2).Some?
    ensures Parse([PortOpt, NvmeOpt, NvbatchOpt(-1)], 2).value.nvbatch == -1
  {
  }
}
