/** The conversation builder of `process_mbox` (lib/email_cleaner.py): every
    message already read from the mailbox is cleaned and filtered, split into
    sent and received mail, the sent mail is deduplicated by Message-ID, and
    each sent message becomes one user/assistant training example. */
module Conversation {
  import opened Text
  import opened Sanitizer
  import opened Classifier
  import opened TrainingFormat

  /** One mailbox message as read: raw header values and the extracted text. */
  datatype MailRecord = MailRecord(
    messageId: string,
    from: string,
    subject: string,
    inReplyTo: string,
    text: string)

  /** An entry of the `outbound` list. */
  datatype Outbound = Outbound(msgid: string, inreply: string, subject: string, body: string)

  // ===========================================================================
  // The scan over the mailbox
  // ===========================================================================

  /** The three transforms, in the order the builder applies them. */
  function CleanBody(text: string): string
  {
    MetadataStripped(StripSignature(StripQuoted(text)))
  }

  /** `user_email.lower() in from_addr`, with `from_addr` already lower-cased. */
  predicate SentByUser(from: string, userEmail: string)
  {
    Contains(Lower(from), Lower(userEmail))
  }

  /** What the scan does with one message: skip it, append it to `outbound`,
      or store its body in `inbound` under its Message-ID. */
  datatype Disposition = Skipped | Sent(entry: Outbound) | Received(msgid: string, body: string)

  /** One pass of the scan loop: clean the body, drop it unless it is
      meaningful, then route it by sender. */
  function Classify(r: MailRecord, userEmail: string, lists: PatternLists): (d: Disposition)
    ensures d.Sent? <==> IsMeaningful(CleanBody(r.text), r.subject, lists) && SentByUser(r.from, userEmail)
    ensures d.Received? <==> IsMeaningful(CleanBody(r.text), r.subject, lists) && !SentByUser(r.from, userEmail)
    ensures d.Sent? ==> (d.entry.msgid == Strip(r.messageId) && d.entry.inreply == Strip(r.inReplyTo)
      && d.entry.subject == r.subject && d.entry.body == CleanBody(r.text))
    ensures d.Received? ==> d.msgid == Strip(r.messageId) && d.body == CleanBody(r.text)
  {
    var body := CleanBody(r.text);
    if !IsMeaningful(body, r.subject, lists) then Skipped
    else if SentByUser(r.from, userEmail) then
      Sent(Outbound(Strip(r.messageId), Strip(r.inReplyTo), r.subject, body))
    else Received(Strip(r.messageId), body)
  }

  /** The dispositions of all messages, in mailbox order. */
  function ClassifyAll(rs: seq<MailRecord>, userEmail: string, lists: PatternLists): (ds: seq<Disposition>)
    ensures |ds| == |rs|
  {
    if rs == [] then []
    else ClassifyAll(rs[..|rs| - 1], userEmail, lists) + [Classify(rs[|rs| - 1], userEmail, lists)]
  }

  lemma {:induction false} ClassifyAllAt(rs: seq<MailRecord>, userEmail: string, lists: PatternLists, i: nat)
    requires i < |rs|
    ensures ClassifyAll(rs, userEmail, lists)[i] == Classify(rs[i], userEmail, lists)
    decreases |rs|
  {
    hide Classify;
    if i < |rs| - 1 {
      var init := rs[..|rs| - 1];
      assert init[i] == rs[i];
      ClassifyAllAt(init, userEmail, lists, i);
    }
  }

  /** The `outbound` list after the scan. */
  function Outbounds(ds: seq<Disposition>): (r: seq<Outbound>)
    ensures |r| <= |ds|
  {
    if ds == [] then []
    else
      var last := ds[|ds| - 1];
      Outbounds(ds[..|ds| - 1]) + (if last.Sent? then [last.entry] else [])
  }

  /** The `inbound` dict after the scan: a later message overwrites an earlier
      one with the same Message-ID. */
  function Inbound(ds: seq<Disposition>): map<string, string>
  {
    if ds == [] then map[]
    else
      var last := ds[|ds| - 1];
      var m := Inbound(ds[..|ds| - 1]);
      if last.Received? then m[last.msgid := last.body] else m
  }

  // ===========================================================================
  // Deduplication: `{o["msgid"]: o for o in outbound}.values()`
  // ===========================================================================

  predicate HasId(outs: seq<Outbound>, id: string)
  {
    exists j :: 0 <= j < |outs| && outs[j].msgid == id
  }

  /** The dict's keys in insertion order: each Message-ID at its first occurrence. */
  function FirstIds(outs: seq<Outbound>): seq<string>
  {
    if outs == [] then []
    else
      var last := outs[|outs| - 1];
      var ids := FirstIds(outs[..|outs| - 1]);
      if last.msgid in ids then ids else ids + [last.msgid]
  }

  /** The dict itself: every Message-ID bound to the last entry carrying it. */
  function Latest(outs: seq<Outbound>): (m: map<string, Outbound>)
    ensures forall id :: id in m <==> id in FirstIds(outs)
  {
    if outs == [] then map[]
    else
      var last := outs[|outs| - 1];
      Latest(outs[..|outs| - 1])[last.msgid := last]
  }

  /** The dict's values in iteration order. */
  function Unique(outs: seq<Outbound>): (u: seq<Outbound>)
    ensures |u| == |FirstIds(outs)|
  {
    var ids := FirstIds(outs);
    var m := Latest(outs);
    seq(|ids|, i requires 0 <= i < |ids| => m[ids[i]])
  }

  /** Position of the first entry with the given Message-ID. */
  function FirstIndex(outs: seq<Outbound>, id: string): (r: nat)
    requires HasId(outs, id)
    ensures r < |outs| && outs[r].msgid == id
    ensures forall q :: 0 <= q < r ==> outs[q].msgid != id
  {
    var init := outs[..|outs| - 1];
    if HasId(init, id) then
      var r := FirstIndex(init, id);
      assert outs[r] == init[r];
      r
    else
      |outs| - 1
  }

  // ===========================================================================
  // Pairing
  // ===========================================================================

  /** One example: the parent's body when the reply names a known inbound
      message, the synthetic instruction otherwise; the sent body answers it. */
  function ExampleOf(o: Outbound, inbound: map<string, string>): Example
  {
    if o.inreply != "" && o.inreply in inbound then Pair(inbound[o.inreply], o.body)
    else Pair(Intent(o.subject, o.body), o.body)
  }

  /** The dataset built from the scanned dispositions. */
  function DatasetOf(ds: seq<Disposition>): seq<Example>
  {
    var u := Unique(Outbounds(ds));
    var inbound := Inbound(ds);
    seq(|u|, i requires 0 <= i < |u| => ExampleOf(u[i], inbound))
  }

  /** The dataset `process_mbox` returns for the messages `rs`. */
  function BuildDataset(rs: seq<MailRecord>, userEmail: string, lists: PatternLists): seq<Example>
  {
    DatasetOf(ClassifyAll(rs, userEmail, lists))
  }

  /** The body of the scan loop for one message: header values, the three
      transforms, the meaningfulness test and the routing by sender. */
  method ReadMessage(r: MailRecord, userEmail: string, lists: PatternLists) returns (d: Disposition)
    ensures d == Classify(r, userEmail, lists)
  {
    var msgid := Strip(r.messageId);
    var fromAddr := Lower(r.from);
    var body := StripSignature(StripQuoted(r.text));
    body := StripEmailMetadata(body);
    if !IsMeaningful(body, r.subject, lists) {
      return Skipped;
    }
    if Contains(fromAddr, Lower(userEmail)) {
      d := Sent(Outbound(msgid, Strip(r.inReplyTo), r.subject, body));
    } else {
      d := Received(msgid, body);
    }
  }

  lemma ClassifyAllStep(rs: seq<MailRecord>, userEmail: string, lists: PatternLists, k: nat)
    requires k < |rs|
    ensures ClassifyAll(rs[..k + 1], userEmail, lists)
      == ClassifyAll(rs[..k], userEmail, lists) + [Classify(rs[k], userEmail, lists)]
  {
    assert rs[..k + 1][..k] == rs[..k];
  }

  lemma ScanStep(ds: seq<Disposition>, d: Disposition)
    ensures Outbounds(ds + [d]) == Outbounds(ds) + (if d.Sent? then [d.entry] else [])
    ensures Inbound(ds + [d]) == if d.Received? then Inbound(ds)[d.msgid := d.body] else Inbound(ds)
  {
    assert (ds + [d])[..|ds|] == ds;
  }

  lemma ScanStart(userEmail: string, lists: PatternLists)
    ensures Outbounds(ClassifyAll([], userEmail, lists)) == []
    ensures Inbound(ClassifyAll([], userEmail, lists)) == map[]
  {
  }

  /** The scan loop of `process_mbox`: appends sent messages to `outbound`
      and stores received bodies in `inbound`. */
  method Scan(records: seq<MailRecord>, userEmail: string, lists: PatternLists)
    returns (outbound: seq<Outbound>, inbound: map<string, string>)
    ensures outbound == Outbounds(ClassifyAll(records, userEmail, lists))
    ensures inbound == Inbound(ClassifyAll(records, userEmail, lists))
  {
    hide *;
    ScanStart(userEmail, lists);
    assert records[..0] == [];
    outbound := [];
    inbound := map[];
    for k := 0 to |records|
      invariant outbound == Outbounds(ClassifyAll(records[..k], userEmail, lists))
      invariant inbound == Inbound(ClassifyAll(records[..k], userEmail, lists))
    {
      var r := records[k];
      ClassifyAllStep(records, userEmail, lists, k);
      var d := ReadMessage(r, userEmail, lists);
      ScanStep(ClassifyAll(records[..k], userEmail, lists), d);
      match d {
        case Skipped =>
        case Sent(o) => outbound := outbound + [o];
        case Received(msgid, body) => inbound := inbound[msgid := body];
      }
    }
    assert records[..|records|] == records;
  }

  /** `{o["msgid"]: o for o in outbound}`: the dict's keys in insertion order
      and the dict itself. */
  method Deduplicate(outbound: seq<Outbound>) returns (order: seq<string>, table: map<string, Outbound>)
    ensures order == FirstIds(outbound)
    ensures table == Latest(outbound)
  {
    order := [];
    table := map[];
    for k := 0 to |outbound|
      invariant order == FirstIds(outbound[..k])
      invariant table == Latest(outbound[..k])
    {
      var o := outbound[k];
      assert outbound[..k + 1][..k] == outbound[..k];
      if o.msgid !in table {
        order := order + [o.msgid];
      }
      table := table[o.msgid := o];
    }
    assert outbound[..|outbound|] == outbound;
  }

  /** The dataset loop of `process_mbox`, over the dict's values in order. */
  method PairUp(outbound: seq<Outbound>, inbound: map<string, string>) returns (dataset: seq<Example>)
    ensures |dataset| == |Unique(outbound)|
    ensures forall i :: 0 <= i < |dataset| ==> dataset[i] == ExampleOf(Unique(outbound)[i], inbound)
  {
    hide Intent, FirstIds, Latest, Pair;
    var order, table := Deduplicate(outbound);
    ghost var u := Unique(outbound);
    dataset := [];
    for k := 0 to |order|
      invariant |dataset| == k
      invariant forall i :: 0 <= i < k ==> dataset[i] == ExampleOf(u[i], inbound)
    {
      var o := table[order[k]];
      assert o == u[k];
      var example;
      if o.inreply != "" && o.inreply in inbound {
        example := Pair(inbound[o.inreply], o.body);
      } else {
        example := Pair(Intent(o.subject, o.body), o.body);
      }
      assert example == ExampleOf(u[k], inbound);
      dataset := dataset + [example];
    }
  }

  /** `process_mbox` after each message has been read. */
  method ProcessMbox(records: seq<MailRecord>, userEmail: string, lists: PatternLists)
    returns (dataset: seq<Example>)
    ensures dataset == BuildDataset(records, userEmail, lists)
  {
    var outbound, inbound := Scan(records, userEmail, lists);
    dataset := PairUp(outbound, inbound);
  }

  // ===========================================================================
  // Properties of the scan
  // ===========================================================================

  /** The outbound list is exactly the sent entries, in mailbox order. */
  lemma {:induction false} OutboundsExactly(ds: seq<Disposition>)
    ensures forall o :: o in Outbounds(ds) <==> Sent(o) in ds
    decreases |ds|
  {
    if ds != [] {
      OutboundsExactly(ds[..|ds| - 1]);
      assert ds == ds[..|ds| - 1] + [ds[|ds| - 1]];
    }
  }

  /** A Message-ID is an inbound key exactly when some received message carries it. */
  lemma {:induction false} InboundKeys(ds: seq<Disposition>, id: string)
    ensures id in Inbound(ds) <==> exists p :: 0 <= p < |ds| && ds[p].Received? && ds[p].msgid == id
    decreases |ds|
  {
    if ds != [] {
      var init := ds[..|ds| - 1];
      InboundKeys(init, id);
      if exists p :: 0 <= p < |init| && init[p].Received? && init[p].msgid == id {
        var p :| 0 <= p < |init| && init[p].Received? && init[p].msgid == id;
        assert ds[p] == init[p];
      }
      if exists p :: 0 <= p < |ds| && ds[p].Received? && ds[p].msgid == id {
        var p :| 0 <= p < |ds| && ds[p].Received? && ds[p].msgid == id;
        if p < |init| {
          assert init[p] == ds[p];
        }
      }
    }
  }

  /** The body kept for a Message-ID is the one of the last received message carrying it. */
  lemma {:induction false} InboundIsLast(ds: seq<Disposition>, p: nat)
    requires p < |ds| && ds[p].Received?
    requires forall q :: p < q < |ds| && ds[q].Received? ==> ds[q].msgid != ds[p].msgid
    ensures ds[p].msgid in Inbound(ds) && Inbound(ds)[ds[p].msgid] == ds[p].body
    decreases |ds|
  {
    var init := ds[..|ds| - 1];
    if p < |ds| - 1 {
      assert init[p] == ds[p];
      forall q | p < q < |init| && init[q].Received?
        ensures init[q].msgid != init[p].msgid
      {
        assert init[q] == ds[q];
      }
      InboundIsLast(init, p);
    }
  }

  /** The scan groups exactly the messages that pass `is_meaningful`: every
      outbound entry is the cleaned form of a meaningful message the user sent,
      and every inbound key the Message-ID of a meaningful message the user
      received. */
  lemma ScanKeepsOnlyMeaningful(rs: seq<MailRecord>, userEmail: string, lists: PatternLists)
    ensures forall o :: o in Outbounds(ClassifyAll(rs, userEmail, lists)) <==>
      exists p :: 0 <= p < |rs| && Classify(rs[p], userEmail, lists) == Sent(o)
    ensures forall id :: id in Inbound(ClassifyAll(rs, userEmail, lists)) <==>
      exists p :: 0 <= p < |rs| && Classify(rs[p], userEmail, lists).Received? && Classify(rs[p], userEmail, lists).msgid == id
  {
    hide Classify, Outbounds, Inbound;
    var ds := ClassifyAll(rs, userEmail, lists);
    OutboundsExactly(ds);
    forall p | 0 <= p < |rs| ensures ds[p] == Classify(rs[p], userEmail, lists) {
      ClassifyAllAt(rs, userEmail, lists, p);
    }
    forall id ensures id in Inbound(ds) <==>
      exists p :: 0 <= p < |rs| && Classify(rs[p], userEmail, lists).Received? && Classify(rs[p], userEmail, lists).msgid == id
    {
      InboundKeys(ds, id);
    }
  }

  // ===========================================================================
  // Properties of the deduplication
  // ===========================================================================

  lemma HasIdSnoc(outs: seq<Outbound>, id: string)
    requires outs != []
    ensures HasId(outs, id) <==> HasId(outs[..|outs| - 1], id) || outs[|outs| - 1].msgid == id
  {
    var init := outs[..|outs| - 1];
    if HasId(init, id) {
      var j :| 0 <= j < |init| && init[j].msgid == id;
      assert outs[j] == init[j];
    }
    if HasId(outs, id) && outs[|outs| - 1].msgid != id {
      var j :| 0 <= j < |outs| && outs[j].msgid == id;
      assert init[j] == outs[j];
    }
  }

  /** The keys are exactly the Message-IDs that occur. */
  lemma {:induction false} FirstIdsMembers(outs: seq<Outbound>)
    ensures forall id :: id in FirstIds(outs) <==> HasId(outs, id)
    decreases |outs|
  {
    if outs != [] {
      FirstIdsMembers(outs[..|outs| - 1]);
      forall id ensures id in FirstIds(outs) <==> HasId(outs, id) {
        HasIdSnoc(outs, id);
      }
    }
  }

  /** No key is listed twice. */
  lemma {:induction false} FirstIdsDistinct(outs: seq<Outbound>)
    ensures forall i, j :: 0 <= i < j < |FirstIds(outs)| ==> FirstIds(outs)[i] != FirstIds(outs)[j]
    decreases |outs|
  {
    if outs != [] {
      FirstIdsDistinct(outs[..|outs| - 1]);
    }
  }

  /** Keys are listed in the order of their first occurrence. */
  lemma {:induction false} FirstIdsOrder(outs: seq<Outbound>)
    ensures forall id :: id in FirstIds(outs) ==> HasId(outs, id)
    ensures forall i, j :: 0 <= i < j < |FirstIds(outs)| ==>
      FirstIndex(outs, FirstIds(outs)[i]) < FirstIndex(outs, FirstIds(outs)[j])
    decreases |outs|
  {
    FirstIdsMembers(outs);
    if outs != [] {
      var init := outs[..|outs| - 1];
      var ids := FirstIds(outs);
      var initIds := FirstIds(init);
      FirstIdsOrder(init);
      forall i, j | 0 <= i < j < |ids|
        ensures FirstIndex(outs, ids[i]) < FirstIndex(outs, ids[j])
      {
        assert HasId(init, ids[i]) by {
          assert ids[i] == initIds[i];
        }
        assert FirstIndex(outs, ids[i]) == FirstIndex(init, ids[i]);
        if j < |initIds| {
          assert ids[j] == initIds[j];
          assert FirstIndex(outs, ids[j]) == FirstIndex(init, ids[j]);
        } else {
          assert !HasId(init, ids[j]) by {
            FirstIdsMembers(init);
          }
        }
      }
    }
  }

  /** The entry kept for a Message-ID is its last occurrence. */
  lemma {:induction false} LatestIsLast(outs: seq<Outbound>, p: nat)
    requires p < |outs|
    requires forall q :: p < q < |outs| ==> outs[q].msgid != outs[p].msgid
    ensures outs[p].msgid in Latest(outs) && Latest(outs)[outs[p].msgid] == outs[p]
    decreases |outs|
  {
    if p < |outs| - 1 {
      var init := outs[..|outs| - 1];
      assert init[p] == outs[p];
      LatestIsLast(init, p);
    }
  }

  /** Every kept entry is one of the outbound entries, with its key as Message-ID. */
  lemma {:induction false} LatestFromOutbound(outs: seq<Outbound>)
    ensures forall id :: id in Latest(outs) ==> Latest(outs)[id] in outs && Latest(outs)[id].msgid == id
    decreases |outs|
  {
    if outs != [] {
      LatestFromOutbound(outs[..|outs| - 1]);
    }
  }

  /** The last position at or after `q` with the Message-ID of `outs[q]`. */
  ghost function LastOccurrence(outs: seq<Outbound>, q: nat): (l: nat)
    requires q < |outs|
    ensures q <= l < |outs| && outs[l].msgid == outs[q].msgid
    ensures forall r :: l < r < |outs| ==> outs[r].msgid != outs[l].msgid
    decreases |outs| - q
  {
    if exists r :: q < r < |outs| && outs[r].msgid == outs[q].msgid then
      var r :| q < r < |outs| && outs[r].msgid == outs[q].msgid;
      LastOccurrence(outs, r)
    else q
  }

  /** The deduplicated list has one entry per distinct Message-ID, listed in
      order of first occurrence, and each is the last entry carrying its
      Message-ID. */
  lemma UniqueSpec(outs: seq<Outbound>)
    ensures forall i :: 0 <= i < |Unique(outs)| ==> Unique(outs)[i].msgid == FirstIds(outs)[i]
    ensures forall i :: 0 <= i < |Unique(outs)| ==>
      exists l :: 0 <= l < |outs| && outs[l] == Unique(outs)[i]
        && (forall r :: l < r < |outs| ==> outs[r].msgid != Unique(outs)[i].msgid)
    ensures forall i, j :: 0 <= i < j < |Unique(outs)| ==>
      FirstIndex(outs, Unique(outs)[i].msgid) < FirstIndex(outs, Unique(outs)[j].msgid)
  {
    LatestFromOutbound(outs);
    FirstIdsOrder(outs);
    var u := Unique(outs);
    forall i | 0 <= i < |u|
      ensures exists l :: (0 <= l < |outs| && outs[l] == u[i]
        && forall r :: l < r < |outs| ==> outs[r].msgid != u[i].msgid)
    {
      var l := LastOccurrence(outs, FirstIndex(outs, u[i].msgid));
      LatestIsLast(outs, l);
    }
  }

  // ===========================================================================
  // Properties of the dataset
  // ===========================================================================

  /** The last position at or after `p` holding a received message with the
      Message-ID of `ds[p]`. */
  ghost function LastReceived(ds: seq<Disposition>, p: nat): (l: nat)
    requires p < |ds| && ds[p].Received?
    ensures p <= l < |ds| && ds[l].Received? && ds[l].msgid == ds[p].msgid
    ensures forall q :: l < q < |ds| && ds[q].Received? ==> ds[q].msgid != ds[l].msgid
    decreases |ds| - p
  {
    if exists q :: p < q < |ds| && ds[q].Received? && ds[q].msgid == ds[p].msgid then
      var q :| p < q < |ds| && ds[q].Received? && ds[q].msgid == ds[p].msgid;
      LastReceived(ds, q)
    else p
  }

  /** Scanning two stretches of mail one after the other appends their outbound lists. */
  lemma {:induction false} OutboundsAppend(a: seq<Disposition>, b: seq<Disposition>)
    ensures Outbounds(a + b) == Outbounds(a) + Outbounds(b)
    decreases |b|
  {
    if b == [] {
      assert a + b == a;
    } else {
      var b' := b[..|b| - 1];
      assert (a + b)[..|a + b| - 1] == a + b';
      OutboundsAppend(a, b');
    }
  }

  lemma OutboundsSingle(d: Disposition)
    ensures Outbounds([d]) == if d.Sent? then [d.entry] else []
  {
    assert [d][..0] == [];
  }

  /** The last outbound entry with a given Message-ID is sent at or after every
      sent message carrying that Message-ID. */
  lemma SentAfter(ds: seq<Disposition>, o: Outbound, l: nat)
    requires l < |Outbounds(ds)| && Outbounds(ds)[l] == o
    requires forall r :: l < r < |Outbounds(ds)| ==> Outbounds(ds)[r].msgid != o.msgid
    ensures forall q :: 0 <= q < |ds| && ds[q].Sent? && ds[q].entry.msgid == o.msgid ==>
      exists k :: q <= k < |ds| && ds[k] == Sent(o)
  {
    hide Outbounds;
    forall q | 0 <= q < |ds| && ds[q].Sent? && ds[q].entry.msgid == o.msgid
      ensures exists k :: q <= k < |ds| && ds[k] == Sent(o)
    {
      var a := ds[..q];
      var b := ds[q..];
      assert ds == a + b;
      OutboundsAppend(a, b);
      assert b == [ds[q]] + b[1..];
      OutboundsAppend([ds[q]], b[1..]);
      OutboundsSingle(ds[q]);
      var m := |Outbounds(a)|;
      assert Outbounds(ds)[m] == ds[q].entry;
      assert Outbounds(b)[l - m] == o;
      assert o in Outbounds(b);
      OutboundsExactly(b);
      var j :| 0 <= j < |b| && b[j] == Sent(o);
      assert ds[q + j] == Sent(o);
    }
  }

  /** Each inbound entry holds the body of the last received message with its Message-ID. */
  lemma InboundValue(ds: seq<Disposition>, id: string)
    requires id in Inbound(ds)
    ensures exists l :: (0 <= l < |ds| && ds[l].Received? && ds[l].msgid == id && Inbound(ds)[id] == ds[l].body
      && forall q :: l < q < |ds| && ds[q].Received? ==> ds[q].msgid != id)
  {
    InboundKeys(ds, id);
    var p :| 0 <= p < |ds| && ds[p].Received? && ds[p].msgid == id;
    var l := LastReceived(ds, p);
    InboundIsLast(ds, l);
  }

  /** Some sent message carries the Message-ID. */
  predicate SentId(ds: seq<Disposition>, id: string)
  {
    exists p :: 0 <= p < |ds| && ds[p].Sent? && ds[p].entry.msgid == id
  }

  /** Some received message carries the Message-ID. */
  predicate ReceivedId(ds: seq<Disposition>, id: string)
  {
    exists p :: 0 <= p < |ds| && ds[p].Received? && ds[p].msgid == id
  }

  /** The builder emits one example per distinct Message-ID among the sent
      messages: the examples' Message-IDs are pairwise distinct, and a
      Message-ID has an example exactly when a sent message carries it. */
  lemma DatasetOnePerMessageId(ds: seq<Disposition>)
    ensures |DatasetOf(ds)| == |Unique(Outbounds(ds))|
    ensures var u := Unique(Outbounds(ds));
      forall i, j :: 0 <= i < j < |u| ==> u[i].msgid != u[j].msgid
    ensures forall id :: HasId(Unique(Outbounds(ds)), id) <==> SentId(ds, id)
  {
    hide Unique, FirstIds, Latest, Outbounds, ExampleOf, Inbound;
    var outs := Outbounds(ds);
    var u := Unique(outs);
    UniqueSpec(outs);
    FirstIdsDistinct(outs);
    FirstIdsMembers(outs);
    OutboundsExactly(ds);
    forall id ensures HasId(u, id) <==> SentId(ds, id)
    {
      if HasId(u, id) {
        var i :| 0 <= i < |u| && u[i].msgid == id;
        assert HasId(outs, id);
        var j :| 0 <= j < |outs| && outs[j].msgid == id;
        assert Sent(outs[j]) in ds;
        var p :| 0 <= p < |ds| && ds[p] == Sent(outs[j]);
      }
      if SentId(ds, id) {
        var p :| 0 <= p < |ds| && ds[p].Sent? && ds[p].entry.msgid == id;
        assert ds[p] in ds;
        assert ds[p].entry in outs;
        var j :| 0 <= j < |outs| && outs[j] == ds[p].entry;
        assert HasId(outs, id);
        var i :| 0 <= i < |FirstIds(outs)| && FirstIds(outs)[i] == id;
        assert u[i].msgid == id;
      }
    }
  }

  /** Example `i` is a user message followed by an assistant message whose
      content is the body of the last sent message with that Message-ID. The
      user content is the body of the last received message whose Message-ID
      is the In-Reply-To value, when that value is non-empty and such a message
      exists, and the synthetic instruction otherwise. */
  lemma DatasetPairing(ds: seq<Disposition>, i: nat)
    requires i < |DatasetOf(ds)|
    ensures var o := Unique(Outbounds(ds))[i];
      var e := DatasetOf(ds)[i];
      && e.Chat? && |e.messages| == 2
      && e.messages[0].role == "user" && e.messages[1].role == "assistant"
      && e.messages[1].content == o.body
      && Sent(o) in ds
      && (forall q :: 0 <= q < |ds| && ds[q].Sent? && ds[q].entry.msgid == o.msgid ==>
            exists k :: q <= k < |ds| && ds[k] == Sent(o))
      && (o.inreply != "" && ReceivedId(ds, o.inreply) ==>
            exists l :: (0 <= l < |ds| && ds[l].Received? && ds[l].msgid == o.inreply
              && e.messages[0].content == ds[l].body
              && forall q :: l < q < |ds| && ds[q].Received? ==> ds[q].msgid != o.inreply))
      && (o.inreply == "" || !ReceivedId(ds, o.inreply) ==>
            e.messages[0].content == Intent(o.subject, o.body))
  {
    var outs := Outbounds(ds);
    var u := Unique(outs);
    var o := u[i];
    UniqueSpec(outs);
    OutboundsExactly(ds);
    var l :| 0 <= l < |outs| && outs[l] == o && forall r :: l < r < |outs| ==> outs[r].msgid != o.msgid;
    assert o in outs;
    SentAfter(ds, o, l);
    InboundKeys(ds, o.inreply);
    if o.inreply != "" && o.inreply in Inbound(ds) {
      InboundValue(ds, o.inreply);
    }
  }
}
