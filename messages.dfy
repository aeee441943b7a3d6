/**
 * The facts about one chat message that the view reads (the state of a
 * `KonMessage`, an `InMessage` or an `OutMessage`), as a value. The message
 * classes themselves are not part of this model; these are the fields the view
 * queries through their getters.
 */
module Messages {
  import opened Wrappers

  /** A point in time (milliseconds), as a `java.util.Date` holds it. */
  type Date = int

  /** A date formatter such as the view's medium date format: equal dates format equally, distinct dates may not. */
  type DateFormat = Date -> string

  datatype Direction = Inbound | Outbound

  /** Delivery status; `OtherStatus` stands for every value the view's switches do not name. */
  datatype Status = Pending | Sent | Received | Error | OtherStatus

  /** Encryption mode of the coder status; `UnknownEncryption` stands for a value the view does not name. */
  datatype Encryption = NotEncrypted | Encrypted | Decrypted | UnknownEncryption

  /** Signing mode of the coder status; `UnknownSigning` stands for a value the view does not name. */
  datatype Signing = NotSigned | Signed | Verified | UnknownSigning

  /** A contact as seen by the view: identity, display name and JID. */
  datatype Contact = Contact(id: int, name: string, jid: string)

  /** One transmission of a message: the remote contact and, once acknowledged, the date it was received. */
  datatype Transmission = Transmission(contact: Contact, received: Option<Date>)

  /**
   * An attachment as seen by the view: `filePath` is the local file the
   * controller reports ("" until downloaded), `imagePath` the preview image
   * the controller reports for the message ("" when there is none), and
   * `progress` the download progress code.
   */
  datatype Attachment = Attachment(filePath: string, imagePath: string, progress: int)

  /**
   * A message: `id` is its database identity; `coderErrors` the textual form of
   * the coder's security errors; `serverError` the server error text ("" when
   * none); `date` the creation (outbound) or receipt (inbound) date;
   * `senderName` and `senderJid` the contact name and the full JID an inbound
   * message came from.
   */
  datatype Message = Message(
    id: int,
    dir: Direction,
    status: Status,
    encryption: Encryption,
    signing: Signing,
    coderErrors: seq<string>,
    serverError: string,
    date: Date,
    serverDate: Option<Date>,
    text: string,
    groupCommand: Option<string>,
    attachment: Option<Attachment>,
    transmissions: seq<Transmission>,
    senderName: string,
    senderJid: string)
  {
    /** The transmission of a message that has exactly one. */
    function SingleTransmission(): (r: Option<Transmission>)
      ensures r.Some? <==> |transmissions| == 1
      ensures r.Some? ==> r.value in transmissions
    {
      if |transmissions| == 1 then Some(transmissions[0]) else None
    }

    /** The date the single transmission was received, if there is one and it was. */
    function DeliveredDate(): (r: Option<Date>)
      ensures |transmissions| == 1 ==> r == transmissions[0].received
      ensures |transmissions| != 1 ==> r.None?
    {
      match SingleTransmission()
      case Some(t) => t.received
      case None => None
    }

    /** The body still awaits decryption. */
    predicate IsEncrypted() {
      encryption == Encrypted
    }
  }

  /** The identities of the contacts of some transmissions. */
  function ContactIds(ts: seq<Transmission>): (r: set<int>)
    ensures forall i :: 0 <= i < |ts| ==> ts[i].contact.id in r
    ensures forall c :: c in r ==> exists i :: 0 <= i < |ts| && ts[i].contact.id == c
  {
    set i | 0 <= i < |ts| :: ts[i].contact.id
  }

  /** Adding one transmission adds its contact's identity. */
  lemma ContactIdsStep(ts: seq<Transmission>, i: int)
    requires 0 <= i < |ts|
    ensures ContactIds(ts[..i + 1]) == ContactIds(ts[..i]) + {ts[i].contact.id}
  {
    var a, b := ts[..i + 1], ts[..i];
    assert a[i] == ts[i];
    forall c | c in ContactIds(a) ensures c in ContactIds(b) + {ts[i].contact.id} {
      var j :| 0 <= j < |a| && a[j].contact.id == c;
      if j < i { assert b[j] == a[j]; }
    }
    forall c | c in ContactIds(b) ensures c in ContactIds(a) {
      var j :| 0 <= j < |b| && b[j].contact.id == c;
      assert a[j] == b[j];
    }
  }
}
