/** The allowlist of federated servers: success counts, the set in memory and the file it is appended to. */
module Allowlist {
  import opened Strings

  datatype Mode = Auto | Manual | Open

  datatype Config = Config(mode: Mode, threshold: nat, hasPath: bool)

  /** A configured threshold below 1 counts as 1. */
  function Threshold(cfg: Config): nat {
    if cfg.threshold < 1 then 1 else cfg.threshold
  }

  datatype Lists = Lists(allowed: set<string>, counts: map<string, nat>, file: string)

  function Norm(domain: string): string {
    ToLower(TrimSpace(domain))
  }

  /** What a line of the file contributes: comments and blank lines nothing. */
  function Keep(line: string): set<string> {
    var d := TrimSpace(ToLower(line));
    if d == "" || d[0] == '#' then {} else {d}
  }

  /** The domains a file lists, line by line. */
  function Load(file: string): set<string>
    decreases |file|
  {
    if IndexOf(file, '\n') < |file| then Keep(UpTo(file, '\n')) + Load(After(file, '\n'))
    else Keep(file)
  }

  /** Start or restart: the set comes from the file, the counts are forgotten. */
  function Loaded(cfg: Config, file: string): Lists {
    Lists(if cfg.hasPath && !cfg.mode.Open? then Load(file) else {}, map[], file)
  }

  predicate IsAllowed(cfg: Config, s: Lists, domain: string) {
    cfg.mode.Open? || Norm(domain) in s.allowed
  }

  function CountOf(s: Lists, d: string): nat {
    if d in s.counts then s.counts[d] else 0
  }

  function Appended(file: string, d: string): string {
    file + d + "\n"
  }

  function Add(cfg: Config, s: Lists, d: string, writes: bool): Lists {
    if d == "" || d in s.allowed then s
    else s.(allowed := s.allowed + {d},
            file := if cfg.hasPath && cfg.mode.Auto? && writes then Appended(s.file, d) else s.file)
  }

  datatype Op =
    | Receive(domain: string, writes: bool)
    | Restart

  /** A valid transaction from `domain`; `writes` is whether an append to the file would succeed. */
  function Step(cfg: Config, s: Lists, op: Op): Lists {
    match op
    case Restart => Loaded(cfg, s.file)
    case Receive(domain, writes) =>
      var d := Norm(domain);
      if IsAllowed(cfg, s, domain) || !cfg.mode.Auto? || d == "" then s
      else
        var t := s.(counts := s.counts[d := CountOf(s, d) + 1]);
        if CountOf(t, d) >= Threshold(cfg) then Add(cfg, t, d, writes) else t
  }

  function Run(cfg: Config, s: Lists, ops: seq<Op>): Lists {
    if ops == [] then s else Step(cfg, Run(cfg, s, ops[..|ops| - 1]), ops[|ops| - 1])
  }

  // ----------------------------------------------------------------------- service

  class SecurityService {
    const cfg: Config
    var allowed: set<string>
    var counts: map<string, nat>
    var file: string

    function State(): Lists
      reads this
    {
      Lists(allowed, counts, file)
    }

    constructor (cfg: Config, file: string)
      ensures this.cfg == cfg && State() == Loaded(cfg, file)
    {
      this.cfg, this.file := cfg, file;
      allowed, counts := {}, map[];
      new;
      if cfg.hasPath && !cfg.mode.Open? {
        allowed := LoadLines(file);
      }
    }

    method Allows(domain: string) returns (r: bool)
      ensures r == IsAllowed(cfg, State(), domain)
    {
      if cfg.mode.Open? {
        return true;
      }
      r := Norm(domain) in allowed;
    }

    method RecordSuccessfulTransaction(domain: string) returns (shouldAdd: bool)
      modifies `counts
      ensures var skip := old(IsAllowed(cfg, State(), domain)) || !cfg.mode.Auto? || Norm(domain) == "";
              && counts == (if skip then old(counts)
                            else old(counts)[Norm(domain) := old(CountOf(State(), Norm(domain))) + 1])
              && shouldAdd == (!skip && CountOf(State(), Norm(domain)) >= Threshold(cfg))
    {
      var known := Allows(domain);
      if !cfg.mode.Auto? || known {
        return false;
      }
      var d := Norm(domain);
      if d == "" {
        return false;
      }
      counts := counts[d := CountOf(State(), d) + 1];
      return counts[d] >= Threshold(cfg);
    }

    method AddToAllowlist(domain: string, writes: bool)
      modifies `allowed, `file
      ensures State() == Add(cfg, old(State()), Norm(domain), writes)
    {
      var d := Norm(domain);
      if d == "" || d in allowed {
        return;
      }
      allowed := allowed + {d};
      if cfg.hasPath && cfg.mode.Auto? && writes {
        file := Appended(file, d);
      }
    }

    /** What the transaction handler does once the request is valid. */
    method TrustOrigin(origin: string, writes: bool)
      modifies this
      ensures State() == Step(cfg, old(State()), Receive(origin, writes))
    {
      var known := Allows(origin);
      if !known {
        var add := RecordSuccessfulTransaction(origin);
        if add {
          AddToAllowlist(origin, writes);
        }
      }
    }
  }

  method LoadLines(file: string) returns (allowed: set<string>)
    ensures allowed == Load(file)
  {
    allowed := {};
    var rest, more := file, true;
    while more
      invariant allowed + Rest(rest, more) == Load(file)
      decreases more, |rest|
    {
      LoadCut(rest);
      var line := UpTo(rest, '\n');
      var d := TrimSpace(ToLower(line));
      ghost var before := allowed;
      if d != "" && d[0] != '#' {
        allowed := allowed + {d};
      }
      assert allowed == before + Keep(line);
      more := IndexOf(rest, '\n') < |rest|;
      rest := After(rest, '\n');
    }
  }

  /** What is still to be read; nothing once the last line is done. */
  function Rest(rest: string, more: bool): set<string> {
    if more then Load(rest) else {}
  }

  lemma LoadCut(file: string)
    ensures Load(file) == Keep(UpTo(file, '\n')) + Rest(After(file, '\n'), IndexOf(file, '\n') < |file|)
  {
    if IndexOf(file, '\n') == |file| {
      assert UpTo(file, '\n') == file;
    }
  }

  // ------------------------------------------------------------------ what is listed

  /** `d` in lower or upper case with white space around it, and no comment. */
  ghost predicate Spells(line: string, d: string) {
    && d != "" && d[0] != '#'
    && exists i, j | 0 <= i < j <= |line| :: IsMiddle(line, i, j) && ToLower(line[i..j]) == d
  }

  predicate IsMiddle(s: string, i: nat, j: nat)
    requires i < j <= |s|
  {
    && (forall k | 0 <= k < |s| && !(i <= k < j) :: s[k] in " \t\n\r")
    && s[i] !in " \t\n\r" && s[j - 1] !in " \t\n\r"
  }

  lemma KeepExactly(line: string, d: string)
    ensures d in Keep(line) <==> Spells(line, d)
  {
    NormEitherWay(line);
    var i, j := TrimSpaceIsMiddle(line);
    assert Norm(line) == ToLower(line[i..j]);
    if i < j {
      assert IsMiddle(line, i, j);
    }
    forall p, q | 0 <= p < q <= |line| && IsMiddle(line, p, q)
      ensures p == i && q == j
    {
      OneMiddle(line, i, j, p, q);
    }
  }

  lemma OneMiddle(s: string, i: nat, j: nat, p: nat, q: nat)
    requires i <= j <= |s| && p < q <= |s| && IsMiddle(s, p, q)
    requires forall k | 0 <= k < |s| && !(i <= k < j) :: s[k] in " \t\n\r"
    requires i < j ==> s[i] !in " \t\n\r" && s[j - 1] !in " \t\n\r"
    ensures p == i && q == j
  {
    assert s[p] !in " \t\n\r" && s[q - 1] !in " \t\n\r";
  }

  ghost predicate HasLine(file: string, front: string, line: string, back: string) {
    && file == front + (line + back)
    && (front == "" || front[|front| - 1] == '\n') && '\n' !in line && (back == "" || back[0] == '\n')
  }

  ghost predicate IsListed(file: string, d: string) {
    exists front, line, back :: HasLine(file, front, line, back) && Spells(line, d)
  }

  lemma FirstCut(file: string)
    ensures var line, back := UpTo(file, '\n'), From(file, '\n');
            && file == line + back && '\n' !in line && (back == "" || back[0] == '\n')
            && (back == "" <==> IndexOf(file, '\n') == |file|)
            && (back != "" ==> back[1..] == After(file, '\n'))
  {
  }

  /** The first line and what is after it, which starts with the newline. */
  lemma NextLine(file: string, d: string) returns (line: string, back: string)
    ensures file == line + back && '\n' !in line && (back == "" || back[0] == '\n')
    ensures d in Load(file) <==> Spells(line, d) || (back != "" && d in Load(back[1..]))
  {
    line, back := UpTo(file, '\n'), From(file, '\n');
    FirstCut(file);
    LoadCut(file);
    KeepExactly(line, d);
  }

  lemma LineBehind(front: string, line: string, back: string)
    requires back != "" && back[0] == '\n'
    ensures front + (line + back) == (front + (line + "\n")) + back[1..]
    ensures IsTerminated(front + (line + "\n"))
  {
    assert back == "\n" + back[1..];
  }

  /** Every line the reader takes in is a line of the file. */
  lemma {:induction false} LoadedIsListed(front: string, rest: string, d: string)
    requires IsTerminated(front) && d in Load(rest)
    ensures IsListed(front + rest, d)
    decreases |rest|
  {
    var line, back := NextLine(rest, d);
    if Spells(line, d) {
      assert HasLine(front + rest, front, line, back);
    } else {
      LineBehind(front, line, back);
      LoadedIsListed(front + (line + "\n"), back[1..], d);
    }
  }

  lemma LoadOfParts(front: string, line: string, rest: string, d: string)
    requires IsTerminated(front) && '\n' !in line && Spells(line, d)
    ensures d in Load(front + line) && d in Load(front + (line + ("\n" + rest)))
  {
    KeepExactly(line, d);
    LoadAppend(front, line);
    LoadLine(line);
    LoadAppend(front, line + ("\n" + rest));
    LoadStep(line, rest);
  }

  lemma ListedIsLoaded(front: string, line: string, back: string, d: string)
    requires IsTerminated(front) && '\n' !in line && (back == "" || back[0] == '\n') && Spells(line, d)
    ensures d in Load(front + (line + back))
  {
    if back == "" {
      LoadOfParts(front, line, "", d);
      assert line + back == line;
    } else {
      LoadOfParts(front, line, back[1..], d);
      assert back == "\n" + back[1..];
    }
  }

  /** What is read from the file is exactly what its lines spell. */
  lemma LoadExactly(file: string, d: string)
    ensures d in Load(file) <==> IsListed(file, d)
  {
    if d in Load(file) {
      LoadedIsListed("", file, d);
      assert "" + file == file;
    }
    forall front, line, back | HasLine(file, front, line, back) && Spells(line, d)
      ensures d in Load(file)
    {
      ListedIsLoaded(front, line, back, d);
    }
  }

  lemma AllowedExactly(cfg: Config, file: string, domain: string)
    ensures IsAllowed(cfg, Loaded(cfg, file), domain) <==>
            cfg.mode == Open || (cfg.hasPath && IsListed(file, Norm(domain)))
  {
    LoadExactly(file, Norm(domain));
  }

  /** Only in automatic mode does anything change, and there no domain leaves the list without a restart. */
  lemma {:induction false} OnlyAutoLearns(cfg: Config, file: string, ops: seq<Op>)
    ensures var s := Run(cfg, Loaded(cfg, file), ops);
            && (cfg.mode != Auto ==> s == Loaded(cfg, file))
            && file <= s.file
  {
    if ops != [] {
      OnlyAutoLearns(cfg, file, ops[..|ops| - 1]);
    }
  }

  // --------------------------------------------------------------- joining the list

  /** Transactions from a domain, in any spelling. */
  function Received(ops: seq<Op>, d: string): nat {
    if ops == [] then 0
    else
      var last := ops[|ops| - 1];
      Received(ops[..|ops| - 1], d) + if last.Receive? && Norm(last.domain) == d then 1 else 0
  }

  /** No count exceeds the threshold, and one that reaches it belongs to a listed domain. */
  ghost predicate Bounded(cfg: Config, s: Lists) {
    forall d | d in s.counts :: s.counts[d] <= Threshold(cfg) && (d !in s.allowed ==> s.counts[d] < Threshold(cfg))
  }

  lemma StepKeepsBounded(cfg: Config, s: Lists, op: Op)
    requires Bounded(cfg, s)
    ensures Bounded(cfg, Step(cfg, s, op))
  {
  }

  /** A count never exceeds the threshold, across restarts. */
  lemma {:induction false} CountsAreBounded(cfg: Config, file: string, ops: seq<Op>, d: string)
    ensures Bounded(cfg, Run(cfg, Loaded(cfg, file), ops))
    ensures CountOf(Run(cfg, Loaded(cfg, file), ops), d) <= Threshold(cfg)
  {
    if ops != [] {
      CountsAreBounded(cfg, file, ops[..|ops| - 1], d);
      StepKeepsBounded(cfg, Run(cfg, Loaded(cfg, file), ops[..|ops| - 1]), ops[|ops| - 1]);
    }
  }

  function Min(a: nat, b: nat): nat {
    if a <= b then a else b
  }

  /** A domain the file does not list is allowed exactly from its threshold-th transaction since the start. */
  lemma {:induction false} JoinsExactlyAtThreshold(cfg: Config, file: string, ops: seq<Op>, d: string)
    requires cfg.mode.Auto? && d != "" && d !in Loaded(cfg, file).allowed
    requires forall op | op in ops :: op.Receive?
    ensures var s := Run(cfg, Loaded(cfg, file), ops);
            && (d in s.allowed <==> Received(ops, d) > 0 && Received(ops, d) >= cfg.threshold)
            && CountOf(s, d) == Min(Received(ops, d), Threshold(cfg))
  {
    if ops != [] {
      JoinsExactlyAtThreshold(cfg, file, ops[..|ops| - 1], d);
      assert ops[|ops| - 1] in ops;
      JoinStep(cfg, Run(cfg, Loaded(cfg, file), ops[..|ops| - 1]), ops[|ops| - 1], d, Received(ops[..|ops| - 1], d));
    }
  }

  lemma JoinStep(cfg: Config, s: Lists, op: Op, d: string, n: nat)
    requires cfg.mode.Auto? && d != "" && op.Receive?
    requires (d in s.allowed <==> n >= Threshold(cfg)) && CountOf(s, d) == Min(n, Threshold(cfg))
    ensures var t, m := Step(cfg, s, op), n + if Norm(op.domain) == d then 1 else 0;
            (d in t.allowed <==> m >= Threshold(cfg)) && CountOf(t, d) == Min(m, Threshold(cfg))
  {
  }

  // ----------------------------------------------------------------- reading it back

  predicate IsTerminated(file: string) {
    file == "" || file[|file| - 1] == '\n'
  }

  lemma LoadStep(line: string, rest: string)
    requires '\n' !in line
    ensures Load(line + ("\n" + rest)) == Keep(line) + Load(rest)
  {
    var tail := "\n" + rest;
    assert tail[0] == '\n' && tail[1..] == rest;
    assert UpTo(tail, '\n') == "" && After(tail, '\n') == rest && IndexOf(tail, '\n') == 0;
    CutsOfAppend(line, tail, '\n');
    IndexOfAppend(line, tail, '\n');
    assert line + "" == line;
  }

  lemma LoadLine(line: string)
    requires '\n' !in line
    ensures Load(line) == Keep(line)
  {
  }

  /** Whole lines in front contribute by themselves. */
  lemma {:induction false} LoadAppend(front: string, rest: string)
    requires IsTerminated(front)
    ensures Load(front + rest) == Load(front) + Load(rest)
    decreases |front|
  {
    if front == "" {
      assert front + rest == rest;
      LoadLine("");
    } else {
      var line, more := FirstLine(front);
      LoadStep(line, more);
      LoadStep(line, more + rest);
      LoadAppend(more, rest);
      Regroup(line, more, rest);
    }
  }

  lemma Regroup(line: string, more: string, rest: string)
    ensures line + ("\n" + more) + rest == line + ("\n" + (more + rest))
  {
  }

  lemma FirstLine(s: string) returns (line: string, more: string)
    requires s != "" && IsTerminated(s)
    ensures '\n' !in line && s == line + ("\n" + more) && IsTerminated(more) && |more| < |s|
  {
    var i := IndexOf(s, '\n');
    assert s[|s| - 1] in s;
    Found(s, '\n');
    line, more := s[..i], s[i + 1..];
    assert s == s[..i] + ([s[i]] + s[i + 1..]);
    assert more != "" ==> more[|more| - 1] == s[|s| - 1];
  }

  // ---- a new line appended to the file

  predicate Blank(line: string) {
    TrimLeft(line) == ""
  }

  /** A normalised domain that a line can hold. */
  predicate Listable(d: string) {
    d != "" && Norm(d) == d && '\n' !in d && d[0] != '#'
  }

  lemma {:induction false} TrimLeftOfAppend(x: string, y: string)
    ensures TrimLeft(x + y) == if Blank(x) then TrimLeft(y) else TrimLeft(x) + y
  {
    if x == "" {
      assert x + y == y;
    } else {
      assert (x + y)[1..] == x[1..] + y && (x + y)[0] == x[0];
      TrimLeftOfAppend(x[1..], y);
    }
  }

  lemma {:induction false} TrimLeftOfLower(s: string)
    ensures TrimLeft(ToLower(s)) == ToLower(TrimLeft(s))
  {
    if s != "" && IsSpace(s[0]) {
      assert ToLower(s)[1..] == ToLower(s[1..]);
      TrimLeftOfLower(s[1..]);
    }
  }

  lemma {:induction false} TrimRightOfLower(s: string)
    ensures TrimRight(ToLower(s)) == ToLower(TrimRight(s))
  {
    if s != "" && IsSpace(s[|s| - 1]) {
      assert ToLower(s)[..|s| - 1] == ToLower(s[..|s| - 1]);
      TrimRightOfLower(s[..|s| - 1]);
    }
  }

  /** The file reader and the callers normalise in different orders, to the same effect. */
  lemma NormEitherWay(s: string)
    ensures TrimSpace(ToLower(s)) == Norm(s)
  {
    TrimLeftOfLower(s);
    TrimRightOfLower(TrimLeft(s));
  }

  lemma NormTwice(s: string)
    ensures Norm(Norm(s)) == Norm(s)
  {
  }

  lemma ListableIsTrimmed(d: string)
    requires Listable(d)
    ensures Trimmed(d)
  {
  }

  /** A blank line that `d` was appended to reads as `d`. */
  lemma KeepOfBlankLine(line: string, d: string)
    requires Listable(d) && Blank(line)
    ensures Keep(line + d) == {d} && Keep(line) == {}
  {
    NormEitherWay(line + d);
    NormEitherWay(line);
    TrimLeftOfAppend(line, d);
  }

  /** Appended to anything else, `d` is not read back. */
  lemma KeepOfOtherLine(line: string, d: string)
    requires Listable(d) && !Blank(line)
    ensures d !in Keep(line + d)
  {
    NormEitherWay(line + d);
    ListableIsTrimmed(d);
    TrimLeftOfAppend(line, d);
    EndStays(TrimLeft(line), d);
    assert Norm(line + d) == ToLower(TrimLeft(line) + d);
    assert |Norm(line + d)| > |d|;
  }

  lemma EndStays(x: string, d: string)
    requires Trimmed(d) && d != ""
    ensures TrimRight(x + d) == x + d
  {
  }

  lemma AppendedLine(front: string, line: string, d: string)
    ensures Appended(front + line, d) == front + ((line + d) + ("\n" + ""))
  {
  }

  lemma LoadAppended(front: string, line: string, d: string)
    requires IsTerminated(front) && '\n' !in line && '\n' !in d
    ensures Load(front + line) == Load(front) + Keep(line)
    ensures Load(Appended(front + line, d)) == Load(front) + Keep(line + d)
  {
    LoadAppend(front, line);
    LoadLine(line);
    AppendedLine(front, line, d);
    LoadAppend(front, (line + d) + ("\n" + ""));
    LoadStep(line + d, "");
    LoadLine("");
  }

  /**
   * Appending a new domain to a file that ends in `line` lists it for the next
   * start, and keeps the rest, exactly when that last line is blank.
   */
  lemma AppendIsReadBackExactly(front: string, line: string, d: string)
    requires IsTerminated(front) && '\n' !in line
    requires Listable(d) && d !in Load(front + line)
    ensures Load(Appended(front + line, d)) == Load(front + line) + {d} <==> Blank(line)
  {
    LoadAppended(front, line, d);
    if Blank(line) {
      KeepOfBlankLine(line, d);
    } else {
      KeepOfOtherLine(line, d);
    }
  }

  /** The file lists the set in memory, and the next append starts a line. */
  ghost predicate InStep(s: Lists) {
    IsTerminated(s.file) && s.allowed == Load(s.file)
  }

  predicate Storable(op: Op) {
    op.Receive? ==> op.writes && '\n' !in Norm(op.domain) && !("#" <= Norm(op.domain))
  }

  lemma StepKeepsInStep(cfg: Config, s: Lists, op: Op)
    requires cfg.mode.Auto? && cfg.hasPath && InStep(s) && Storable(op)
    ensures InStep(Step(cfg, s, op))
  {
    if op.Receive? && Step(cfg, s, op).file != s.file {
      var d := Norm(op.domain);
      NormTwice(op.domain);
      assert s.file + "" == s.file;
      AppendIsReadBackExactly(s.file, "", d);
      assert Appended(s.file, d)[|s.file| + |d|] == '\n';
    }
  }

  /** From an empty or newline-terminated file, a restart at any time gives back the set in memory. */
  lemma {:induction false} RestartKeepsTheList(cfg: Config, file: string, ops: seq<Op>)
    requires cfg.mode.Auto? && cfg.hasPath && IsTerminated(file)
    requires forall op | op in ops :: Storable(op)
    ensures InStep(Run(cfg, Loaded(cfg, file), ops))
    ensures var s := Run(cfg, Loaded(cfg, file), ops);
            Step(cfg, s, Restart).allowed == s.allowed
  {
    if ops != [] {
      RestartKeepsTheList(cfg, file, ops[..|ops| - 1]);
      StepKeepsInStep(cfg, Run(cfg, Loaded(cfg, file), ops[..|ops| - 1]), ops[|ops| - 1]);
    }
  }
}
