/**
 * Flow messages and their acknowledgements: `src/core/state.rs` lines 501-565, without the
 * look-ups of principals and teams.
 */
module Messages {
  import opened Wrappers
  import opened Errors

  datatype Acknowledgement = Acknowledgement(recipientId: string, acknowledgedBy: string, acknowledgedAt: int)

  datatype Message = Message(
    id: string,
    flowId: string,
    taskId: Option<string>,
    recipients: seq<string>,
    acknowledgements: seq<Acknowledgement>
  )

  /** Replaces the first acknowledgement of the same recipient, or adds one. */
  function Record(stored: seq<Acknowledgement>, a: Acknowledgement): seq<Acknowledgement> {
    if stored == [] then [a]
    else if stored[0].recipientId == a.recipientId then [a] + stored[1..]
    else [stored[0]] + Record(stored[1..], a)
  }

  /** Records acknowledgements one by one and stops at the first that no recipient owes. */
  function RecordAll(m: Message, incoming: seq<Acknowledgement>): Outcome<Message>
    decreases |incoming|
  {
    if incoming == [] then Accept(m)
    else if incoming[0].recipientId !in m.recipients then
      Deny(m, Validation(UnknownRecipient(m.id, incoming[0].recipientId)))
    else RecordAll(m.(acknowledgements := Record(m.acknowledgements, incoming[0])), incoming[1..])
  }

  function Acknowledge(messages: map<string, Message>, flowId: string, id: string, incoming: seq<Acknowledgement>):
    Outcome<map<string, Message>>
  {
    if id !in messages then Deny(messages, NotFound(id))
    else if messages[id].flowId != flowId then Deny(messages, Validation(FlowMismatch(id, flowId)))
    else
      var r := RecordAll(messages[id], incoming);
      Outcome(messages[id := r.state], r.result)
  }

  // ------------------------------------------------------------------
  // What recording changes
  // ------------------------------------------------------------------

  /** The acknowledgement that stands for a recipient: the first one. */
  function Standing(stored: seq<Acknowledgement>, id: string): (r: Option<Acknowledgement>)
    ensures r.None? <==> forall a | a in stored :: a.recipientId != id
  {
    if stored == [] then None
    else
      assert stored == [stored[0]] + stored[1..];
      if stored[0].recipientId == id then Some(stored[0]) else Standing(stored[1..], id)
  }

  ghost predicate First(s: seq<Acknowledgement>, i: nat)
    requires i < |s|
  {
    forall j | 0 <= j < i :: s[j].recipientId != s[i].recipientId
  }

  lemma {:induction false} FirstStands(s: seq<Acknowledgement>, i: nat)
    requires i < |s| && First(s, i)
    ensures Standing(s, s[i].recipientId) == Some(s[i])
  {
    if i > 0 {
      forall j | 0 <= j < i - 1 ensures s[1..][j].recipientId != s[1..][i - 1].recipientId {
        assert s[1..][j] == s[j + 1];
      }
      FirstStands(s[1..], i - 1);
    }
  }

  /** Only standing acknowledgements were replaced, each by one of its recipient, and new recipients were added. */
  ghost predicate Extends(s: seq<Acknowledgement>, s': seq<Acknowledgement>) {
    && |s| <= |s'|
    && (forall i | 0 <= i < |s| :: s'[i].recipientId == s[i].recipientId && (First(s, i) || s'[i] == s[i]))
    && forall i, j | 0 <= j < |s| <= i < |s'| :: s[j].recipientId != s'[i].recipientId
  }

  lemma {:induction false} RecordExtends(s: seq<Acknowledgement>, a: Acknowledgement)
    ensures Extends(s, Record(s, a))
    ensures forall id :: Standing(Record(s, a), id) == if id == a.recipientId then Some(a) else Standing(s, id)
  {
    if s != [] && s[0].recipientId != a.recipientId {
      var rest, r := s[1..], Record(s, a);
      RecordExtends(rest, a);
      forall i | 0 <= i < |s|
        ensures r[i].recipientId == s[i].recipientId && (First(s, i) || r[i] == s[i])
      {
        if i > 0 && r[i] != s[i] {
          assert s[i] == rest[i - 1] && First(rest, i - 1) && r[i].recipientId == a.recipientId by {
            RecordTouchesOne(rest, a, i - 1);
          }
          forall j | 0 <= j < i ensures s[j].recipientId != s[i].recipientId {
            assert j > 0 ==> s[j] == rest[j - 1];
          }
        }
      }
      assert forall i | 0 < i < |s| :: s[i] == rest[i - 1];
      AddedIsNew(s, a);
    } else {
      assert s != [] ==> Record(s, a)[1..] == s[1..];
    }
  }

  lemma {:induction false} RecordTouchesOne(s: seq<Acknowledgement>, a: Acknowledgement, i: nat)
    requires i < |s|
    ensures |s| <= |Record(s, a)| <= |s| + 1
    ensures Record(s, a)[i] == s[i] || (First(s, i) && s[i].recipientId == a.recipientId && Record(s, a)[i] == a)
  {
    if s[0].recipientId != a.recipientId {
      if i > 0 {
        RecordTouchesOne(s[1..], a, i - 1);
        assert forall j | 0 < j < |s| :: s[j] == s[1..][j - 1];
      } else {
        AddedIsNew(s[1..], a);
      }
    }
  }

  lemma {:induction false} AddedIsNew(s: seq<Acknowledgement>, a: Acknowledgement)
    ensures |s| <= |Record(s, a)| <= |s| + 1
    ensures |Record(s, a)| > |s| ==>
      Record(s, a)[|s|] == a && forall j | 0 <= j < |s| :: s[j].recipientId != a.recipientId
  {
    if s != [] && s[0].recipientId != a.recipientId {
      AddedIsNew(s[1..], a);
      assert forall j | 0 < j < |s| :: s[j] == s[1..][j - 1];
    }
  }

  lemma ExtendsFurther(s: seq<Acknowledgement>, s': seq<Acknowledgement>, s'': seq<Acknowledgement>)
    requires Extends(s, s') && Extends(s', s'')
    ensures Extends(s, s'')
  {
    forall i | 0 <= i < |s| ensures First(s', i) ==> First(s, i) {
      assert forall j | 0 <= j <= i :: s'[j].recipientId == s[j].recipientId;
    }
    forall i, j | 0 <= j < |s| <= i < |s''| ensures s[j].recipientId != s''[i].recipientId {
      assert s'[j].recipientId == s[j].recipientId;
      assert i < |s'| ==> s''[i].recipientId == s'[i].recipientId;
    }
  }

  /** With the same standing acknowledgements nothing was changed at all. */
  lemma SameStanding(s: seq<Acknowledgement>, s': seq<Acknowledgement>)
    requires Extends(s, s') && forall id :: Standing(s, id) == Standing(s', id)
    ensures s == s'
  {
    if |s| < |s'| {
      var a := s'[|s|];
      assert a in s';
      var was := Standing(s, a.recipientId);
      assert false;
    }
    forall i | 0 <= i < |s| ensures s[i] == s'[i] {
      if First(s, i) {
        assert forall j | 0 <= j <= i :: s'[j].recipientId == s[j].recipientId;
        FirstStands(s, i);
        FirstStands(s', i);
      }
    }
  }

  // ------------------------------------------------------------------
  // Exactly when acknowledging changes nothing
  // ------------------------------------------------------------------

  /** How many acknowledgements are recorded before one is refused. */
  function Leading(recipients: seq<string>, incoming: seq<Acknowledgement>): (n: nat)
    ensures n <= |incoming|
  {
    if incoming == [] || incoming[0].recipientId !in recipients then 0 else 1 + Leading(recipients, incoming[1..])
  }

  /** No later one of the first n is of the same recipient. */
  ghost predicate LastOf(incoming: seq<Acknowledgement>, n: nat, i: nat)
    requires i < n <= |incoming|
  {
    forall j | i < j < n :: incoming[j].recipientId != incoming[i].recipientId
  }

  /** Of every recipient, the last acknowledgement that is recorded already stands. */
  ghost predicate HarmlessAcknowledgements(m: Message, incoming: seq<Acknowledgement>) {
    var n := Leading(m.recipients, incoming);
    forall i | 0 <= i < n && LastOf(incoming, n, i) ::
      Standing(m.acknowledgements, incoming[i].recipientId) == Some(incoming[i])
  }

  lemma {:induction false} RecordAllExtends(m: Message, incoming: seq<Acknowledgement>)
    ensures var after := RecordAll(m, incoming).state;
      after == m.(acknowledgements := after.acknowledgements) && Extends(m.acknowledgements, after.acknowledgements)
    ensures RecordAll(m, incoming).result.Ok? <==> Leading(m.recipients, incoming) == |incoming|
    decreases |incoming|
  {
    if incoming != [] && incoming[0].recipientId in m.recipients {
      hide Extends, Record;
      var m' := m.(acknowledgements := Record(m.acknowledgements, incoming[0]));
      RecordExtends(m.acknowledgements, incoming[0]);
      RecordAllExtends(m', incoming[1..]);
      ExtendsFurther(m.acknowledgements, m'.acknowledgements, RecordAll(m, incoming).state.acknowledgements);
    }
  }

  /** Afterwards the last recorded acknowledgement of a recipient stands, or the one that stood before. */
  lemma {:induction false} RecordAllStands(m: Message, incoming: seq<Acknowledgement>, id: string)
    ensures var after, n := RecordAll(m, incoming).state, Leading(m.recipients, incoming);
      && (forall i | 0 <= i < n && LastOf(incoming, n, i) && incoming[i].recipientId == id ::
           Standing(after.acknowledgements, id) == Some(incoming[i]))
      && ((forall i | 0 <= i < n :: incoming[i].recipientId != id) ==>
           Standing(after.acknowledgements, id) == Standing(m.acknowledgements, id))
    decreases |incoming|
  {
    if incoming != [] && incoming[0].recipientId in m.recipients {
      hide Extends, Record, Standing;
      var m' := m.(acknowledgements := Record(m.acknowledgements, incoming[0]));
      var rest, n := incoming[1..], Leading(m.recipients, incoming);
      RecordExtends(m.acknowledgements, incoming[0]);
      RecordAllStands(m', rest, id);
      assert forall j | 0 <= j < n - 1 :: rest[j] == incoming[j + 1];
      forall i | 0 <= i < n && LastOf(incoming, n, i) && incoming[i].recipientId == id
        ensures Standing(RecordAll(m, incoming).state.acknowledgements, id) == Some(incoming[i])
      {
        assert i > 0 ==> incoming[i] == rest[i - 1] && LastOf(rest, n - 1, i - 1);
      }
    }
  }

  lemma {:induction false} LastExists(incoming: seq<Acknowledgement>, n: nat, i: nat) returns (k: nat)
    requires i < n <= |incoming|
    ensures k < n && incoming[k].recipientId == incoming[i].recipientId && LastOf(incoming, n, k)
    decreases n - i
  {
    if LastOf(incoming, n, i) {
      k := i;
    } else {
      var j :| i < j < n && incoming[j].recipientId == incoming[i].recipientId;
      k := LastExists(incoming, n, j);
    }
  }

  /** Accepted or refused, acknowledging leaves the message as it was iff it is harmless. */
  lemma AcknowledgingKeepsIffHarmless(m: Message, incoming: seq<Acknowledgement>)
    ensures RecordAll(m, incoming).state == m <==> HarmlessAcknowledgements(m, incoming)
  {
    hide RecordAll, Extends, Leading, LastOf;
    var after, n := RecordAll(m, incoming).state, Leading(m.recipients, incoming);
    RecordAllExtends(m, incoming);
    if after == m {
      forall i | 0 <= i < n && LastOf(incoming, n, i)
        ensures Standing(m.acknowledgements, incoming[i].recipientId) == Some(incoming[i])
      {
        RecordAllStands(m, incoming, incoming[i].recipientId);
      }
    }
    if HarmlessAcknowledgements(m, incoming) {
      forall id ensures Standing(m.acknowledgements, id) == Standing(after.acknowledgements, id) {
        RecordAllStands(m, incoming, id);
        if i: nat :| i < n && incoming[i].recipientId == id {
          var k := LastExists(incoming, n, i);
          assert LastOf(incoming, n, k);
        }
      }
      SameStanding(m.acknowledgements, after.acknowledgements);
    }
  }
}
