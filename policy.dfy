/** The inclusion policy both collectors apply: an optional label set and the
    "killstreak only" flag decide whether a demo is kept, and why. */
module Policy {
  import opened Wrappers

  /** The reasons a decision carries; only printed, never used for a later decision. */
  datatype Reason = NoEvents | HasEvents | OnlyKillstreaks | HasCustomBookmark | ReadFailed
  {
    /** The text the tool prints for this reason. */
    function Text(): string
    {
      match this
      case NoEvents => "no events"
      case HasEvents => "has events"
      case OnlyKillstreaks => "has only killstreak events"
      case HasCustomBookmark => "has custom bookmark"
      case ReadFailed => "failed to read json"
    }
  }

  /** The printed text tells the reasons apart. */
  lemma TextIdentifiesReason(r1: Reason, r2: Reason)
    ensures r1.Text() == r2.Text() <==> r1 == r2
  {
  }

  /** `(include?, reason)`. */
  datatype Decision = Decision(keep: bool, reason: Reason)

  /** Every label is a killstreak event under the variant's own test. */
  predicate AllKillstreaks(labels: set<string>, isKillstreak: string -> bool)
  {
    forall l :: l in labels ==> isKillstreak(l)
  }

  /** The three-rule policy: no labels keeps the demo; labels without the flag drop
      it; with the flag the demo is kept exactly when every label is a killstreak. */
  function Decide(events: Option<set<string>>, filterKsOnly: bool, isKillstreak: string -> bool): (d: Decision)
    ensures events.None? ==> d == Decision(true, NoEvents)
    ensures events.Some? && !filterKsOnly ==> d == Decision(false, HasEvents)
    ensures events.Some? && filterKsOnly ==>
      d == if AllKillstreaks(events.value, isKillstreak) then Decision(true, OnlyKillstreaks)
           else Decision(false, HasCustomBookmark)
    ensures d.keep <==> d.reason == NoEvents || d.reason == OnlyKillstreaks
    ensures d.reason != ReadFailed
  {
    if events.None? then Decision(true, NoEvents)
    else if !filterKsOnly then Decision(false, HasEvents)
    else if AllKillstreaks(events.value, isKillstreak) then Decision(true, OnlyKillstreaks)
    else Decision(false, HasCustomBookmark)
  }

  /** With the flag off, a demo is kept only when it has no labels at all: the
      killstreak test is never consulted. */
  lemma DefaultKeepsOnlyUnlabelled(events: Option<set<string>>, isKillstreak: string -> bool)
    ensures Decide(events, false, isKillstreak).keep <==> events.None?
  {
  }
}
