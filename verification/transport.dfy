/**
 * The HID feature-report channel the configuration engine talks through.
 * The real device is foreign I/O; here it is a script of the answers it will
 * give (any script, so every device behaviour is covered) and a log of the
 * requests it received.
 */
module Transport {
  import opened Wrappers
  import opened Layout

  /** A request on the wire: Get_Report for a tag and a buffer size, or Set_Report with a buffer. */
  datatype Request = GetReport(tag: Byte, size: nat) | SetReport(data: seq<Byte>)

  /**
   * replies: what successive Get_Report requests return (None: the request failed;
   *          Some(bytes): |bytes| bytes were read);
   * counts:  what successive Set_Report requests return (the number of bytes sent);
   * log:     every request issued so far, oldest first.
   */
  datatype Link = Link(replies: seq<Option<seq<Byte>>>, counts: seq<int>, log: seq<Request>)

  /** Get_Report: consumes one scripted reply; a device that has stopped answering fails. */
  function Get(l: Link, tag: Byte, size: nat): (r: (Link, Option<seq<Byte>>))
    ensures r.0.log == l.log + [GetReport(tag, size)]
    ensures r.0.counts == l.counts
    ensures |l.replies| > 0 ==> r.0.replies == l.replies[1..] && r.1 == l.replies[0]
    ensures |l.replies| == 0 ==> r.0.replies == [] && r.1 == None
  {
    var link := l.(log := l.log + [GetReport(tag, size)]);
    if |l.replies| == 0 then (link, None) else (link.(replies := l.replies[1..]), l.replies[0])
  }

  /** Set_Report: consumes one scripted byte count; a device that has stopped answering sends -1. */
  function Send(l: Link, data: seq<Byte>): (r: (Link, int))
    ensures r.0.log == l.log + [SetReport(data)]
    ensures r.0.replies == l.replies
    ensures |l.counts| > 0 ==> r.0.counts == l.counts[1..] && r.1 == l.counts[0]
    ensures |l.counts| == 0 ==> r.0.counts == [] && r.1 == -1
  {
    var link := l.(log := l.log + [SetReport(data)]);
    if |l.counts| == 0 then (link, -1) else (link.(counts := l.counts[1..]), l.counts[0])
  }

  /** The opened device handle. */
  class HidDevice {
    var replies: seq<Option<seq<Byte>>>
    var counts: seq<int>
    var log: seq<Request>

    function State(): Link
      reads this
    {
      Link(replies, counts, log)
    }

    constructor (replies: seq<Option<seq<Byte>>>, counts: seq<int>)
      ensures State() == Link(replies, counts, [])
    {
      this.replies := replies;
      this.counts := counts;
      this.log := [];
    }

    method GetFeatureReport(tag: Byte, size: nat) returns (r: Option<seq<Byte>>)
      modifies this
      ensures (State(), r) == Get(old(State()), tag, size)
    {
      log := log + [GetReport(tag, size)];
      if |replies| == 0 {
        r := None;
      } else {
        r := replies[0];
        replies := replies[1..];
      }
    }

    method SendFeatureReport(data: seq<Byte>) returns (sent: int)
      modifies this
      ensures (State(), sent) == Send(old(State()), data)
    {
      log := log + [SetReport(data)];
      if |counts| == 0 {
        sent := -1;
      } else {
        sent := counts[0];
        counts := counts[1..];
      }
    }
  }
}
