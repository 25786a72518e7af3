/**
  Publishing one message after another: the retry loop, and the window that keeps a message
  from being sent twice.
*/
module Publishing {
  import opened Strings
  import opened Windows

  datatype Result = Ignored | Sent | Failed

  const TRIES: nat := 3

  /** The key under which a message is remembered; a missing or empty topic is "default". */
  function TopicKey(topic: Option<string>, id: string): string {
    (if topic.None? || topic.value == "" then "default" else topic.value) + "|" + id
  }

  /** Topics for which messages are remembered together. */
  predicate SameTopic(t: Option<string>, t': Option<string>) {
    t == t' || (t in {None, Some(""), Some("default")} && t' in {None, Some(""), Some("default")})
  }

  /** Messages share a key exactly if they have one id and one topic, as long as topics hold no bar. */
  lemma TopicKeyIff(t: Option<string>, id: string, t': Option<string>, id': string)
    requires (t.Some? ==> '|' !in t.value) && (t'.Some? ==> '|' !in t'.value)
    ensures TopicKey(t, id) == TopicKey(t', id') <==> id == id' && SameTopic(t, t')
  {
    var a := if t.None? || t.value == "" then "default" else t.value;
    var b := if t'.None? || t'.value == "" then "default" else t'.value;
    assert '|' !in "default";
    assert TopicKey(t, id) == a + ['|'] + id && TopicKey(t', id') == b + ['|'] + id';
    CutAtFirst(a, '|', id);
    CutAtFirst(b, '|', id');
  }

  /** The position of the first try that the broker takes, or TRIES. */
  function FirstTaken(broker: seq<bool>): (i: nat)
    ensures i <= |broker| && (forall j :: 0 <= j < i ==> !broker[j]) && (i < |broker| ==> broker[i])
  {
    if broker == [] then 0 else if broker[0] then 0 else 1 + FirstTaken(broker[1..])
  }

  class BasePublisher {
    var recentlySentList: seq<string>
    var recentlySentHash: set<string>
    /** Every key ever recorded, oldest first. */
    ghost var history: seq<string>

    function View(): Window
      reads this
    {
      Window(recentlySentList, recentlySentHash)
    }

    ghost predicate Valid()
      reads this
    {
      Tracks(View(), history)
    }

    constructor ()
      ensures Valid() && history == []
    {
      recentlySentList, recentlySentHash, history := [], {}, [];
    }

    method RecentlySentHas(key: string) returns (has: bool)
      requires Valid()
      ensures has <==> key in LastOf(history, CAPACITY)
    {
      has := key in recentlySentHash;
    }

    /**
      Recording a key: the eviction finds its entry, and the window stays the last hundred keys exactly
      if the key was not among them.
    */
    method UpdateRecentlySent(key: string) returns (keyError: bool)
      requires Valid()
      modifies this
      ensures (View(), keyError) == Record(old(View()), key) && history == old(history) + [key]
      ensures Valid() <==> key !in LastOf(old(history), CAPACITY)
      ensures !keyError
    {
      RecordTracksIff(View(), history, key);
      recentlySentHash := recentlySentHash + {key};
      recentlySentList := recentlySentList + [key];
      keyError := false;
      if |recentlySentList| > 100 {
        var oldId := recentlySentList[0];
        recentlySentList := recentlySentList[1..];
        keyError := oldId !in recentlySentHash;
        recentlySentHash := recentlySentHash - {oldId};
      }
      history := history + [key];
    }

    /**
      `publish`, with the broker's answers to up to three tries: a key among the last hundred is
      ignored; otherwise the message goes out exactly once, at the first try the broker takes, and
      only then is its key recorded.
    */
    method Publish(topic: Option<string>, id: string, broker: seq<bool>)
      returns (result: Result, tries: nat, transmissions: nat)
      requires Valid() && |broker| == 3
      modifies this
      ensures Valid()
      ensures var key := TopicKey(topic, id);
              var known := key in LastOf(old(history), 100);
              var first := FirstTaken(broker);
              && result == (if known then Ignored else if first < 3 then Sent else Failed)
              && tries == (if known then 0 else if first < 3 then first + 1 else 3)
              && transmissions == (if result.Sent? then 1 else 0)
              && history == old(history) + (if result.Sent? then [key] else [])
    {
      tries, transmissions := 0, 0;
      var key := TopicKey(topic, id);
      var has := RecentlySentHas(key);
      if has {
        return Ignored, 0, 0;
      }
      var failed := false;
      while tries < TRIES
        invariant 0 <= tries <= TRIES && transmissions == 0
        invariant Valid() && history == old(history)
        invariant failed <==> tries > 0
        invariant forall j :: 0 <= j < tries ==> !broker[j]
      {
        var taken := broker[tries];
        tries := tries + 1;
        if taken {
          transmissions := transmissions + 1;
          var keyError := UpdateRecentlySent(key);
          failed := keyError;
          if !keyError {
            break;
          }
        } else {
          failed := true;
        }
      }
      result := if failed then Failed else Sent;
    }
  }
}
