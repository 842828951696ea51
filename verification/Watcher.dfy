/** The device watcher (internal/controllers/vpc/watchnddasrldevices.go): any event on an SRL device
    makes every VPC of its namespace hurry again. */
module Watcher {
  import opened Wrappers
  import opened Speedy

  datatype Request = Request(namespace: string, name: string)

  /** `getCrName` */
  function CrName(vpc: Request): string {
    vpc.namespace + "." + vpc.name
  }

  class Queue {
    var items: seq<Request>

    method Add(item: Request)
      modifies this
      ensures items == old(items) + [item]
    {
      items := items + [item];
    }
  }

  /** The VPCs an event in a namespace concerns, in list order. */
  function Concerned(vpcs: seq<Request>, namespace: string): seq<Request> {
    if |vpcs| == 0 then []
    else
      var front := Concerned(vpcs[..|vpcs| - 1], namespace);
      if vpcs[|vpcs| - 1].namespace == namespace then front + [vpcs[|vpcs| - 1]] else front
  }

  lemma {:induction false} ConcernedExact(vpcs: seq<Request>, namespace: string, vpc: Request)
    ensures vpc in Concerned(vpcs, namespace) <==> vpc in vpcs && vpc.namespace == namespace
  {
    if |vpcs| > 0 {
      ConcernedExact(vpcs[..|vpcs| - 1], namespace, vpc);
      assert vpcs == vpcs[..|vpcs| - 1] + [vpcs[|vpcs| - 1]];
    }
  }

  /** The order is that of the list. */
  lemma {:induction false} ConcernedConcat(a: seq<Request>, b: seq<Request>, namespace: string)
    ensures Concerned(a + b, namespace) == Concerned(a, namespace) + Concerned(b, namespace)
  {
    if |b| == 0 {
      assert a + b == a;
    } else {
      var n := |b| - 1;
      assert (a + b)[..|a + b| - 1] == a + b[..n];
      ConcernedConcat(a, b[..n], namespace);
    }
  }

  lemma ConcernedOne(vpc: Request, namespace: string)
    ensures Concerned([vpc], namespace) == if vpc.namespace == namespace then [vpc] else []
  {
  }

  /** The names whose counters the event resets. */
  function Names(vpcs: seq<Request>): set<string> {
    set vpc | vpc in vpcs :: CrName(vpc)
  }

  /** `add`. `device` is the namespace of the event's object if that is an SRL device, and `list` is
      what listing the VPCs returns. The counters of the VPCs concerned become 0 where they are tracked,
      no counter appears or goes, and each of those VPCs is queued once per listing. */
  method Add(handler: Handler, queue: Queue, device: Option<string>, list: Result<seq<Request>>)
    modifies handler, queue
    ensures device.None? || list.Err? ==> handler.speedy == old(handler.speedy) && queue.items == old(queue.items)
    ensures device.Some? && list.Ok? ==>
      var vpcs := Concerned(list.value, device.value);
      && queue.items == old(queue.items) + vpcs
      && handler.speedy.Keys == old(handler.speedy).Keys
      && forall cr :: cr in old(handler.speedy) ==>
           handler.speedy[cr] == if cr in Names(vpcs) then 0 else old(handler.speedy)[cr]
    ensures device.Some? && list.Ok? ==>
      forall vpc :: vpc in list.value && vpc.namespace == device.value ==>
        vpc in queue.items[|old(queue.items)|..] &&
        (vpc.namespace + "." + vpc.name in handler.speedy ==> handler.speedy[vpc.namespace + "." + vpc.name] == 0)
  {
    if device.None? || list.Err? {
      return;
    }
    var vpcs := list.value;
    for i := 0 to |vpcs|
      invariant queue.items == old(queue.items) + Concerned(vpcs[..i], device.value)
      invariant handler.speedy.Keys == old(handler.speedy).Keys
      invariant forall cr :: cr in old(handler.speedy) ==>
        handler.speedy[cr] == if cr in Names(Concerned(vpcs[..i], device.value)) then 0 else old(handler.speedy)[cr]
    {
      assert vpcs[..i + 1][..i] == vpcs[..i];
      var before := Concerned(vpcs[..i], device.value);
      if vpcs[i].namespace == device.value {
        assert Names(before + [vpcs[i]]) == Names(before) + {CrName(vpcs[i])};
        handler.ResetSpeedy(CrName(vpcs[i]));
        queue.Add(vpcs[i]);
      }
    }
    assert vpcs[..|vpcs|] == vpcs;
    forall vpc | vpc in vpcs && vpc.namespace == device.value
      ensures vpc in Concerned(vpcs, device.value) && CrName(vpc) == vpc.namespace + "." + vpc.name
    {
      ConcernedExact(vpcs, device.value, vpc);
    }
  }
}
