/**
 The two sides of dns.c as code that changes state: the parent with its red-black tree of queued
 addresses, and the child with its FIFO queue. Each method takes the step of the protocol that
 bears its name.
 */
module Dns {
  import opened Wrappers
  import opened Addrs
  import opened DnsProtocol
  import RbTree

  class Resolver {
    /** The queued addresses, in a red-black tree under their codes. */
    const tree: RbTree.RbTree
    var hosts: map<Addr, Option<string>>
    var requests: seq<Addr>
    var queue: seq<Addr>
    var replies: seq<Reply>
    ghost var ipTree: set<Addr>
    ghost var written: seq<Addr>
    ghost var answers: seq<Answer>
    ghost var consumed: seq<Addr>
    ghost var lost: set<Addr>

    ghost function W(): World
      reads this
    {
      World(ipTree, hosts, requests, queue, replies, written, answers, consumed, lost)
    }

    ghost predicate Valid()
      reads this, tree, tree.nodes
    {
      tree.Valid() && tree.Keys() == Codes(ipTree)
    }

    constructor (hosts: map<Addr, Option<string>>)
      ensures Valid() && fresh(tree) && tree.nodes == {} && Initial(W()) && this.hosts == hosts
    {
      tree := new RbTree.RbTree();
      this.hosts, requests, queue, replies := hosts, [], [], [];
      ipTree, written, answers, consumed, lost := {}, [], [], [], {};
    }

    /** dns_queue. `writeOk` tells whether the write to the child succeeds. */
    method DnsQueue(a: Addr, writeOk: bool)
      requires Valid()
      modifies this, tree, tree.nodes
      ensures Valid() && W() == old(Queued(W(), a, writeOk)) && fresh(tree.nodes - old(tree.nodes))
    {
      hide RbTree.RbTree.Valid;
      CodesMember(ipTree, a);
      var rec := new RbTree.RbNode(Code(a));
      var dup := tree.Insert(rec);
      if dup != null {
        return;
      }
      CodesAdd(ipTree, a);
      ipTree := ipTree + {a};
      if writeOk {
        requests, written := requests + [a], written + [a];
      } else {
        lost := lost + {a};
      }
    }

    /** dns_unqueue: returns whether the address was queued. */
    method DnsUnqueue(a: Addr) returns (found: bool)
      requires Valid()
      modifies this`ipTree, tree, tree.nodes
      ensures Valid() && ipTree == old(ipTree) - {a} && tree.nodes <= old(tree.nodes)
      ensures found <==> a in old(ipTree)
    {
      hide RbTree.RbTree.Valid;
      CodesMember(ipTree, a);
      var rec := tree.Find(Code(a));
      found := rec != null;
      if rec != null {
        tree.KeysWithout(rec);
        tree.Remove(rec);
        CodesRemove(ipTree, a);
      }
      ipTree := ipTree - {a};
    }

    /** dns_poll: takes replies until none is waiting or one cannot be applied. */
    method DnsPoll()
      requires Valid()
      modifies this, tree, tree.nodes
      ensures Valid() && W() == old(Polled(W())) && tree.nodes <= old(tree.nodes)
    {
      hide RbTree.RbTree.Valid, Label, Consumed;
      while |replies| > 0
        invariant Valid() && Polled(W()) == old(Polled(W())) && tree.nodes <= old(tree.nodes)
        decreases |replies|
      {
        var more := ConsumeOne();
        if !more {
          return;
        }
      }
    }

    /** dns_get_result() with a reply waiting, and the body of the loop in dns_poll() */
    method ConsumeOne() returns (more: bool)
      requires Valid() && |replies| > 0
      modifies this, tree, tree.nodes
      ensures Valid() && W() == old(Consumed(W()).0) && more == old(Continues(Consumed(W()).1))
      ensures |replies| == old(|replies|) - 1 && tree.nodes <= old(tree.nodes)
    {
      hide RbTree.RbTree.Valid, Label;
      var r := replies[0];
      replies, consumed := replies[1..], consumed + [r.addr];
      var found := DnsUnqueue(r.addr);
      if r.addr !in hosts || hosts[r.addr].Some? {
        return false;
      }
      hosts := hosts[r.addr := Some(Label(r))];
      more := true;
    }

    /** The child takes one request from the channel into its queue. */
    method Enqueue()
      requires Valid() && |requests| > 0
      modifies this`requests, this`queue
      ensures Valid() && W() == old(Step(W(), ChildReads))
    {
      queue, requests := queue + [requests[0]], requests[1..];
    }

    /** The child takes the oldest address out of its queue and answers it. */
    method DequeueAndAnswer(name: Option<string>)
      requires Valid() && |queue| > 0
      modifies this`queue, this`replies, this`answers
      ensures Valid() && W() == old(Step(W(), ChildAnswers(name)))
    {
      var ip := queue[0];
      queue := queue[1..];
      replies := replies + [Reply(ip, Cut(name))];
      answers := answers + [Answer(ip, name)];
    }
  }

  ghost function Codes(s: set<Addr>): set<int> {
    set a | a in s :: Code(a)
  }

  lemma CodesMember(s: set<Addr>, a: Addr)
    ensures Code(a) in Codes(s) <==> a in s
  {
    if Code(a) in Codes(s) {
      var b :| b in s && Code(b) == Code(a);
      TreeCmpIsCodeOrder(a, b);
    }
  }

  lemma CodesAdd(s: set<Addr>, a: Addr)
    ensures Codes(s + {a}) == Codes(s) + {Code(a)}
  {
  }

  lemma CodesRemove(s: set<Addr>, a: Addr)
    ensures Codes(s - {a}) == Codes(s) - {Code(a)}
  {
    forall b | b in s && b != a
      ensures Code(b) != Code(a)
    {
      TreeCmpIsCodeOrder(a, b);
    }
  }
}
