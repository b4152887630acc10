/**
 Both configurations stay valid, and no profile number appears twice.
 */
module Validity {
  import opened Lexer
  import opened Text
  import opened Config
  import opened Store
  import opened Commits
  import opened Agreement

  ghost predicate DistinctNumbers(ps: seq<Profile>) {
    forall i, j | 0 <= i < j < |ps| :: ps[i].qci != ps[j].qci
  }

  /** Setting a field creates a profile only if its number is new. */
  lemma SetFieldKeepsNumbers(ps: seq<Profile>, qci: int, field: string, n: int)
    requires DistinctNumbers(ps)
    ensures DistinctNumbers(SetField(ps, qci, field, n))
  {
    var ps' := SetField(ps, qci, field, n);
    assert forall i | 0 <= i < |ps| :: ps'[i].qci == ps[i].qci;
  }

  lemma ApplyKeepsNumbers(cfg: Configuration, key: string, v: Any)
    requires DistinctNumbers(cfg.profiles) && Apply(cfg, key, v).Good?
    ensures DistinctNumbers(Apply(cfg, key, v).value.profiles)
  {
    hide KindOf, ParseQciKey, SetField, DistinctNumbers;
    match Resolve(key).value
    case Flat(_) =>
    case Qci(qci, field) => SetFieldKeepsNumbers(cfg.profiles, qci, field, Converted(key, v).value.i);
  }

  lemma {:induction false} EditKeepsNumbers(cfg: Configuration, changes: seq<Change>)
    requires DistinctNumbers(cfg.profiles) && ApplyAll(cfg, changes).Good?
    ensures DistinctNumbers(ApplyAll(cfg, changes).value.profiles)
    decreases |changes|
  {
    hide Apply, DistinctNumbers, Trim;
    if changes != [] {
      ApplyKeepsNumbers(cfg, Trim(changes[0].0), changes[0].1);
      EditKeepsNumbers(Apply(cfg, Trim(changes[0].0), changes[0].1).value, changes[1..]);
    }
  }

  ghost predicate Proven(cfg: Configuration, isIP: string -> bool) {
    Valid(cfg, isIP) && DistinctNumbers(cfg.profiles)
  }

  ghost predicate BothProven(s: Content, isIP: string -> bool) {
    Proven(s.running, isIP) && Proven(s.cand, isIP)
  }

  lemma StepKeepsValid(s: Content, step: Step, isIP: string -> bool)
    requires BothProven(s, isIP)
    ensures BothProven(Do(s, step, isIP), isIP)
  {
    hide Valid, DistinctNumbers, Committed, Marks, FilesOf, ApplyAll;
    match step
    case Edit(changes) =>
      if Preview(s.cand, changes, isIP).Good? {
        EditKeepsNumbers(s.cand, changes);
      }
    case Discard =>
    case Commit(env) =>
      CommitIsAtomic(s, env, isIP);
      if !Committed(s, env, isIP).ok {
        FailedCommit(s, env, isIP);
      }
  }

  /** Over every run, with whatever failures, candidate and running stay valid with distinct profile numbers. */
  lemma {:induction false} ConfigurationsStayValid(s: Content, steps: seq<Step>, isIP: string -> bool)
    requires BothProven(s, isIP)
    ensures BothProven(Run(s, steps, isIP), isIP)
    decreases |steps|
  {
    hide BothProven, Do;
    if steps != [] {
      ConfigurationsStayValid(s, steps[..|steps| - 1], isIP);
      StepKeepsValid(Run(s, steps[..|steps| - 1], isIP), steps[|steps| - 1], isIP);
    }
  }
}
