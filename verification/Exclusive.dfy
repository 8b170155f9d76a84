/** The instructions the locks are made of (DDI 0487, "Synchronization and semaphores"): exclusive
    load and store with a reservation per core, stores that clear reservations, and wait-for-event
    with an event register per core. Memory is sequentially consistent. */
module Exclusive {

  /** Lock words, the word each core has reserved (-1: none), and each core's event register. */
  datatype Machine = Machine(word: seq<bool>, reserved: seq<int>, event: seq<bool>) {
    predicate Shaped(words: nat, cores: nat) {
      |word| == words && |reserved| == |event| == cores
    }

    /** ldaxr: the loaded value is word[l]. */
    function Ldaxr(c: nat, l: nat): Machine
      requires c < |reserved|
    {
      this.(reserved := reserved[c := l])
    }

    /** A store to word l by anyone ends every reservation of it. */
    function Store(l: nat, v: bool): (m: Machine)
      requires l < |word|
      ensures m.word == word[l := v] && m.event == event && |m.reserved| == |reserved|
      ensures forall c :: 0 <= c < |reserved| ==> m.reserved[c] == if reserved[c] == l then -1 else reserved[c]
    {
      this.(word := word[l := v],
            reserved := seq(|reserved|, c requires 0 <= c < |reserved| => if reserved[c] == l then -1 else reserved[c]))
    }

    /** stxr that fails; it may fail for no visible reason. Nothing stays reserved. */
    function StxrFail(c: nat): (m: Machine)
      requires c < |reserved|
      ensures m.word == word && m.event == event && |m.reserved| == |reserved| && m.reserved[c] == -1
    {
      this.(reserved := reserved[c := -1])
    }

    /** wfe completes when the event register is set, and clears it. */
    function Wfe(c: nat): (m: Machine)
      requires c < |event|
      ensures m.word == word && m.reserved == reserved && |m.event| == |event| && !m.event[c]
    {
      this.(event := event[c := false])
    }

    function Sev(): (m: Machine)
      ensures m.word == word && m.reserved == reserved && |m.event| == |event|
      ensures forall c :: 0 <= c < |event| ==> m.event[c]
    {
      this.(event := seq(|event|, c => true))
    }

    /** An interrupt or the like: the reservation goes, and an event may arrive. */
    function Disturb(c: nat): Machine
      requires c < |event| && c < |reserved|
    {
      this.(event := event[c := true], reserved := reserved[c := -1])
    }
  }

  function Reset(words: nat, cores: nat): (m: Machine)
    ensures m.Shaped(words, cores)
    ensures forall l :: 0 <= l < words ==> !m.word[l]
    ensures forall c :: 0 <= c < cores ==> m.reserved[c] == -1 && !m.event[c]
  {
    Machine(seq(words, l => false), seq(cores, c => -1), seq(cores, c => false))
  }
}
