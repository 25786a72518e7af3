/**
  One node's queue handler: which events it handles, which it passes on, and what it remembers.
*/
module QueueHandling {
  import opened Strings
  import opened Windows

  /** How the handler treats a verb: bans, the other local verbs, and everything else. */
  datatype Verb = Ban | Local | Other

  /** The part of an event that decides its way: its id, and the mark of an event passed on. */
  datatype Event = Event(id: string, revision: Option<nat>)

  /** What a handler hands to the publishers; they run later, in threads of their own. */
  datatype Task = ToNodes(event: Event) | ToOutside(event: Event)

  datatype Handler = Handler(handled: Window, delegated: Window)

  /**
    The handler afterwards, whether it took the event up, what it published, whether its local part
    ran and whether a ban was stored.
  */
  datatype Reaction = Reaction(handler: Handler, took: bool, tasks: seq<Task>, ran: bool, banned: bool)

  function Ignoring(h: Handler): Reaction { Reaction(h, false, [], false, false) }

  /** `_handle_server_activity`, where `here` says whether the user in question is on this node. */
  function React(h: Handler, e: Event, verb: Verb, here: bool): Reaction {
    if e.id in h.delegated.members || e.id in h.handled.members || e.revision.Some? then Ignoring(h)
    else
      var h' := h.(handled := Record(h.handled, e.id).0);
      match verb
      case Ban =>
        if here then Reaction(h', true, [], true, true)
        else Reaction(h'.(delegated := Record(h.delegated, e.id).0), true,
                      [ToNodes(Event(e.id, Some(0)))], false, true)
      case Local => Reaction(h', true, [], true, false)
      case Other => Reaction(h', true, [ToOutside(e)], false, false)
  }

  class QueueHandler {
    var recentlyDelegatedEvents: seq<string>
    var recentlyDelegatedEventsSet: set<string>
    var recentlyHandledEvents: seq<string>
    var recentlyHandledEventsSet: set<string>

    function View(): Handler
      reads this
    {
      Handler(Window(recentlyHandledEvents, recentlyHandledEventsSet),
              Window(recentlyDelegatedEvents, recentlyDelegatedEventsSet))
    }

    ghost predicate Valid()
      reads this
    {
      Exact(View().handled) && Exact(View().delegated)
    }

    constructor ()
      ensures Valid() && View() == Handler(EMPTY, EMPTY)
    {
      recentlyDelegatedEvents, recentlyDelegatedEventsSet := [], {};
      recentlyHandledEvents, recentlyHandledEventsSet := [], {};
    }

    method UpdateRecentlyDelegatedEvents(id: string) returns (keyError: bool)
      requires Valid()
      modifies this
      ensures View() == old(View()).(delegated := Record(old(View()).delegated, id).0)
      ensures Valid() <==> id !in old(recentlyDelegatedEventsSet)
      ensures !keyError
    {
      RecordExactIff(View().delegated, id);
      recentlyDelegatedEvents := recentlyDelegatedEvents + [id];
      recentlyDelegatedEventsSet := recentlyDelegatedEventsSet + {id};
      keyError := false;
      if |recentlyDelegatedEvents| > 100 {
        keyError := recentlyDelegatedEvents[0] !in recentlyDelegatedEventsSet;
        recentlyDelegatedEventsSet := recentlyDelegatedEventsSet - {recentlyDelegatedEvents[0]};
        recentlyDelegatedEvents := recentlyDelegatedEvents[1..];
      }
    }

    method UpdateRecentlyHandledEvents(id: string) returns (keyError: bool)
      requires Valid()
      modifies this
      ensures View() == old(View()).(handled := Record(old(View()).handled, id).0)
      ensures Valid() <==> id !in old(recentlyHandledEventsSet)
      ensures !keyError
    {
      RecordExactIff(View().handled, id);
      recentlyHandledEvents := recentlyHandledEvents + [id];
      recentlyHandledEventsSet := recentlyHandledEventsSet + {id};
      keyError := false;
      if |recentlyHandledEvents| > 100 {
        keyError := recentlyHandledEvents[0] !in recentlyHandledEventsSet;
        recentlyHandledEventsSet := recentlyHandledEventsSet - {recentlyHandledEvents[0]};
        recentlyHandledEvents := recentlyHandledEvents[1..];
      }
    }

    /** Passing an event on: remembered first, so that the own copy is not taken up again. */
    method SendEventToOtherNode(e: Event) returns (published: Task)
      requires Valid()
      modifies this
      ensures Valid() <==> e.id !in old(recentlyDelegatedEventsSet)
      ensures View() == old(View()).(delegated := Record(old(View()).delegated, e.id).0)
      ensures published == ToNodes(Event(e.id, Some(if e.revision.None? then 0 else e.revision.value + 1)))
    {
      var keyError := UpdateRecentlyDelegatedEvents(e.id);
      var revision := 0;
      if e.revision.Some? {
        revision := e.revision.value + 1;
      }
      published := ToNodes(e.(revision := Some(revision)));
    }

    method HandleServerActivity(e: Event, verb: Verb, here: bool)
      returns (took: bool, tasks: seq<Task>, ran: bool, banned: bool)
      requires Valid()
      modifies this
      ensures Valid()
      ensures Reaction(View(), took, tasks, ran, banned) == React(old(View()), e, verb, here)
    {
      took, tasks, ran, banned := false, [], false, false;
      if e.id in recentlyDelegatedEventsSet {
        return;
      }
      if e.id in recentlyHandledEventsSet {
        return;
      }
      if e.revision.Some? {
        return;
      }
      took := true;
      var keyError := UpdateRecentlyHandledEvents(e.id);
      if verb == Ban {
        if !here {
          var task := SendEventToOtherNode(e);
          tasks := [task];
        }
        banned := true;
        if !here {
          return;
        }
        ran := true;
      } else if verb == Local {
        ran := true;
      } else {
        tasks := [ToOutside(e)];
      }
    }
  }
}
