/** A reload as the daemon performs it, in place: parse the file, hand the watchers over,
    replace the configuration. */
module Reloading {
  import opened Wrappers
  import opened ConfFiles
  import opened Handover
  import opened Daemon

  function PathsOf(ws: seq<Watcher>): seq<Path> {
    seq(|ws|, i requires 0 <= i < |ws| => ws[i].path)
  }

  lemma FilledPaths(ws: seq<Watcher>, old_: seq<Path>, new_: seq<Path>, before: seq<Watcher>)
    requires |before| == |old_| && InBounds(Written, old_, |new_|)
    requires Filled(ws, new_, before, PlanTo(Written, old_, new_, |new_|).source)
    ensures PathsOf(ws) == HandedOver(old_, PathsOf(before), new_)
  {
  }

  class Process {
    var config: Config
    var watchers: seq<Watcher>
    var deleted: seq<Watcher> // watchers destroyed so far
    const language: Language

    ghost predicate Valid()
      reads this
    {
      |watchers| == |config.files|
    }

    function Paths(): seq<Path>
      reads this
    {
      PathsOf(watchers)
    }

    /** The first watchers: there are no old ones. */
    constructor (config: Config, language: Language)
      ensures Valid() && this.config == config && Paths() == config.files && deleted == []
      ensures this.language == language
    {
      this.config, this.language, watchers, deleted := config, language, [], [];
      new;
      var none := new Watcher?[0];
      var r := UpdateWatchers(None, config.files, none);
      NothingToReuse(config.files, |config.files|);
      watchers := r.watchers;
    }

    /** The second half of a reload; false if the old paths are read out of bounds. */
    method HandOver(next: Config) returns (running: bool)
      requires Valid()
      modifies this
      ensures running ==> Valid()
      ensures running <==> InBounds(Written, old(config.files), |next.files|)
      ensures running ==>
        && config == next && Paths() == HandedOver(old(config.files), old(Paths()), next.files)
        && var plan := PlanTo(Written, old(config.files), next.files, |next.files|);
           && Filled(watchers, next.files, old(watchers), plan.source)
           && deleted == old(deleted) + StillLeft(old(watchers), plan.left)
    {
      var slots := new Watcher?[|watchers|](i requires 0 <= i < |watchers| reads this => watchers[i]);
      assert slots[..] == watchers;
      var r := UpdateWatchers(Some(config.files), next.files, slots);
      if r.Undefined? {
        return false;
      }
      ghost var plan := PlanTo(Written, config.files, next.files, |next.files|);
      KeptIsLeft(slots[..], watchers, plan.left);
      FilledPaths(r.watchers, config.files, next.files, watchers);
      watchers, deleted := r.watchers, deleted + r.deleted;
      config := next;
      return true;
    }

    /** False if the daemon does not go on. */
    method Reload(data: string) returns (running: bool)
      requires Valid()
      modifies this
      ensures running ==> Valid()
      ensures match LoadText(language, data)
        case SyntaxError(_) =>
          running && config == old(config) && watchers == old(watchers) && deleted == old(deleted)
        case Uncaught(_) => !running
        case Ready(next) =>
          && (running <==> InBounds(Written, old(config.files), |next.files|))
          && (running ==>
                && config == next && Paths() == HandedOver(old(config.files), old(Paths()), next.files)
                && var plan := PlanTo(Written, old(config.files), next.files, |next.files|);
                   && Filled(watchers, next.files, old(watchers), plan.source)
                   && deleted == old(deleted) + StillLeft(old(watchers), plan.left))
    {
      var f := new StdioFile(data);
      var parser := new ConfFile(language.initial, language.apply);
      var loaded := parser.Parse(f);
      match loaded {
        case SyntaxError(_) => return true;
        case Uncaught(_) => return false;
        case Ready(next) =>
          running := HandOver(next);
      }
    }
  }
}
