/** The server's choice of a cipher suite, with equal-preference groups. */
module CipherChoice {
  import opened Bytes

  type Cipher = nat

  /** The server's list.  `inGroup[i]` says that entry `i` is not the last of
      its equal-preference group. */
  datatype Preferences = Preferences(ciphers: seq<Cipher>, inGroup: seq<bool>)
  {
    predicate Valid() { |inGroup| == |ciphers| }

    /** A grouping is well formed when its last entry closes its group. */
    predicate WellFormed() {
      Valid() && (inGroup != [] ==> !inGroup[|inGroup| - 1])
    }
  }

  /** The first position of `c` in `list`. */
  function Rank(list: seq<Cipher>, c: Cipher): (r: nat)
    requires c in list
    ensures r < |list| && list[r] == c
    ensures forall k :: 0 <= k < r ==> list[k] != c
  {
    if list[0] == c then 0 else 1 + Rank(list[1..], c)
  }

  /** The first entry of the group that entry `i` is in. */
  function GroupStart(inGroup: seq<bool>, i: nat): (g: nat)
    requires i < |inGroup|
    ensures g <= i && (g == 0 || !inGroup[g - 1])
    ensures forall k :: g <= k < i ==> inGroup[k]
  {
    if i == 0 || !inGroup[i - 1] then i else GroupStart(inGroup, i - 1)
  }

  /** Entry `i` is in a group that some entry closes. */
  predicate Closed(inGroup: seq<bool>, i: nat) {
    exists j :: i <= j < |inGroup| && !inGroup[j]
  }

  predicate Usable(prio: seq<Cipher>, allow: seq<Cipher>, compatible: set<Cipher>, i: nat)
    requires i < |prio|
  {
    prio[i] in compatible && prio[i] in allow
  }

  /** Entry `i` is usable, no entry of an earlier group is, and no usable entry
      of its own group ranks before it in `allow`. */
  predicate BestAt(prio: seq<Cipher>, inGroup: seq<bool>, allow: seq<Cipher>,
                   compatible: set<Cipher>, i: nat)
    requires |inGroup| == |prio| && i < |prio|
  {
    && Usable(prio, allow, compatible, i)
    && forall k :: 0 <= k < |prio| && Usable(prio, allow, compatible, k) ==>
         GroupStart(inGroup, k) >= GroupStart(inGroup, i) &&
         (GroupStart(inGroup, k) == GroupStart(inGroup, i) ==>
            Rank(allow, prio[k]) >= Rank(allow, prio[i]))
  }

  lemma GroupStartMonotone(inGroup: seq<bool>, i: nat, j: nat)
    requires i <= j < |inGroup|
    ensures GroupStart(inGroup, i) <= GroupStart(inGroup, j)
    ensures (forall k :: i <= k < j ==> inGroup[k]) ==> GroupStart(inGroup, i) == GroupStart(inGroup, j)
    ensures (exists k :: i <= k < j && !inGroup[k]) ==> GroupStart(inGroup, i) < GroupStart(inGroup, j)
  {}

  /** The selection loop over `prio`; `grouped` is false when there are no
      group flags, as for the client's list. */
  method Select(prio: seq<Cipher>, grouped: bool, inGroup: seq<bool>,
                allow: seq<Cipher>, compatible: set<Cipher>)
    returns (choice: Option<Cipher>)
    requires |inGroup| == |prio|
    requires !grouped ==> forall i :: 0 <= i < |inGroup| ==> !inGroup[i]
    ensures choice.None? <==>
            forall i :: 0 <= i < |prio| && Closed(inGroup, i) ==> !Usable(prio, allow, compatible, i)
    ensures choice.Some? ==>
            exists i :: 0 <= i < |prio| && Closed(inGroup, i) && prio[i] == choice.value &&
                        BestAt(prio, inGroup, allow, compatible, i)
  {
    var groupMin := -1;
    ghost var start, best := 0, 0;
    for i := 0 to |prio|
      invariant start <= i && (i < |prio| ==> start == GroupStart(inGroup, i))
      invariant forall k :: start <= k < i ==> inGroup[k]
      invariant start == 0 || !inGroup[start - 1]
      invariant forall k :: 0 <= k < start ==> !Usable(prio, allow, compatible, k)
      invariant groupMin == -1 ==> forall k :: start <= k < i ==> !Usable(prio, allow, compatible, k)
      invariant groupMin != -1 ==>
                  start <= best < i && Usable(prio, allow, compatible, best) &&
                  groupMin == Rank(allow, prio[best]) &&
                  forall k :: start <= k < i && Usable(prio, allow, compatible, k) ==>
                    groupMin <= Rank(allow, prio[k])
    {
      var c := prio[i];
      if c in compatible && c in allow {
        var cipherIndex := Rank(allow, c);
        if grouped && inGroup[i] {
          if groupMin == -1 || groupMin > cipherIndex {
            groupMin := cipherIndex;
            best := i;
          }
        } else {
          best := if groupMin != -1 && groupMin < cipherIndex then best else i;
          if groupMin != -1 && groupMin < cipherIndex {
            cipherIndex := groupMin;
          }
          choice := Some(allow[cipherIndex]);
          ClosedGroupWins(prio, inGroup, allow, compatible, start, i, best);
          return;
        }
      }
      if grouped && !inGroup[i] && groupMin != -1 {
        choice := Some(allow[groupMin]);
        ClosedGroupWins(prio, inGroup, allow, compatible, start, i, best);
        return;
      }
      if !inGroup[i] {
        start := i + 1;
      }
    }
    forall k | 0 <= k < |prio| && Closed(inGroup, k)
      ensures !Usable(prio, allow, compatible, k)
    {
      assert k < start;
    }
    choice := None;
  }

  lemma ClosedGroupWins(prio: seq<Cipher>, inGroup: seq<bool>, allow: seq<Cipher>,
                        compatible: set<Cipher>, start: nat, last: nat, best: nat)
    requires |inGroup| == |prio| && start <= best <= last < |prio|
    requires !inGroup[last] && start == GroupStart(inGroup, last)
    requires forall k :: 0 <= k < start ==> !Usable(prio, allow, compatible, k)
    requires Usable(prio, allow, compatible, best)
    requires forall k :: start <= k <= last && Usable(prio, allow, compatible, k) ==>
               Rank(allow, prio[best]) <= Rank(allow, prio[k])
    ensures BestAt(prio, inGroup, allow, compatible, best) && Closed(inGroup, best)
  {
  }

  /** The server prefers by its own list when told to, else by the client's.
      On a well-formed grouping a cipher is found whenever one is usable. */
  method ChooseCipher(clientPref: seq<Cipher>, serverPref: Preferences,
                      byServer: bool, compatible: set<Cipher>)
    returns (choice: Option<Cipher>)
    requires serverPref.WellFormed()
    ensures choice.None? <==>
            forall c :: c in clientPref && c in serverPref.ciphers ==> c !in compatible
    ensures choice.Some? ==>
              choice.value in clientPref && choice.value in serverPref.ciphers && choice.value in compatible
    ensures choice.Some? && byServer ==>
            exists i :: 0 <= i < |serverPref.ciphers| && serverPref.ciphers[i] == choice.value &&
              BestAt(serverPref.ciphers, serverPref.inGroup, clientPref, compatible, i)
    ensures choice.Some? && !byServer ==>
            exists i :: 0 <= i < |clientPref| && clientPref[i] == choice.value &&
              Usable(clientPref, serverPref.ciphers, compatible, i) &&
              forall k :: 0 <= k < i ==> !Usable(clientPref, serverPref.ciphers, compatible, k)
  {
    if byServer {
      choice := Select(serverPref.ciphers, true, serverPref.inGroup, clientPref, compatible);
      forall c | choice.None? && c in clientPref && c in serverPref.ciphers
        ensures c !in compatible
      {
        var i :| 0 <= i < |serverPref.ciphers| && serverPref.ciphers[i] == c;
        assert !serverPref.inGroup[|serverPref.inGroup| - 1];
        assert Closed(serverPref.inGroup, i);
        assert !Usable(serverPref.ciphers, clientPref, compatible, i);
      }
    } else {
      var flags := seq(|clientPref|, i requires 0 <= i < |clientPref| => false);
      choice := Select(clientPref, false, flags, serverPref.ciphers, compatible);
      forall c | choice.None? && c in clientPref && c in serverPref.ciphers
        ensures c !in compatible
      {
        var i :| 0 <= i < |clientPref| && clientPref[i] == c;
        assert !flags[i];
        assert Closed(flags, i);
        assert !Usable(clientPref, serverPref.ciphers, compatible, i);
      }
      if choice.Some? {
        var i :| 0 <= i < |clientPref| && Closed(flags, i) && clientPref[i] == choice.value &&
                 BestAt(clientPref, flags, serverPref.ciphers, compatible, i);
        forall k | 0 <= k < i
          ensures !Usable(clientPref, serverPref.ciphers, compatible, k)
        {
          assert !flags[k];
          GroupStartMonotone(flags, k, i);
        }
      }
    }
  }
}
