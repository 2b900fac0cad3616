/** The code of the locale runtime between two awaits. */
module LocaleSwitch {
  import opened Wrappers
  import opened LocaleRuntime

  class Runtime {
    const availableLocales: seq<string>
    const fallback: string
    var messageLoadByLocale: map<string, nat>
    var latestRequestId: nat
    var loads: seq<Load>
    var requests: seq<Request>
    var messages: set<string>
    var applied: seq<nat>
    var active: string
    var stored: Option<nat>

    ghost predicate Valid()
      reads this
    {
      latestRequestId == |requests| && Inv(Contents(), fallback)
    }

    ghost function Contents(): State
      reads this
    {
      State(requests, loads, messageLoadByLocale, messages, applied, active, stored)
    }

    constructor (availableLocales: seq<string>, fallback: string)
      ensures Valid() && Contents() == Init(fallback)
      ensures this.availableLocales == availableLocales && this.fallback == fallback
    {
      this.availableLocales, this.fallback := availableLocales, fallback;
      messageLoadByLocale, latestRequestId, loads, requests := map[], 0, [], [];
      messages, applied, active, stored := {}, [], fallback, None;
    }

    /** The load that is under way or done for the locale, or a new one. */
    method StartLoad(locale: string) returns (load: nat)
      modifies this`messageLoadByLocale, this`loads
      ensures Contents() == LoadLocale(old(Contents()), locale)
      ensures load == messageLoadByLocale[locale]
    {
      if locale in messageLoadByLocale {
        return messageLoadByLocale[locale];
      }
      load := |loads|;
      loads := loads + [Load(locale, Pending)];
      messageLoadByLocale := messageLoadByLocale[locale := load];
    }

    /** The handlers of a load: messages arrive, or loading or applying them fails. */
    method OnLoaded(l: nat, fails: bool)
      requires Valid() && Enabled(Contents(), Deliver(l))
      modifies this`messages, this`loads
      ensures Valid()
      ensures Contents() == Step(old(Contents()), fallback, if fails then Break(l) else Deliver(l))
    {
      StepKeeps(Contents(), fallback, if fails then Break(l) else Deliver(l));
      if !fails {
        messages := messages + {loads[l].locale};
      }
      loads := WithStage(loads, l, if fails then Broken else Delivered);
    }

    /** The promise of a load settles; a failed one is forgotten, so that the next request loads again. */
    method OnSettled(l: nat)
      requires Valid() && Enabled(Contents(), Settle(l))
      modifies this`messageLoadByLocale, this`loads
      ensures Valid() && Contents() == Step(old(Contents()), fallback, Settle(l))
    {
      StepKeeps(Contents(), fallback, Settle(l));
      if loads[l].stage.Broken? {
        messageLoadByLocale := messageLoadByLocale - {loads[l].locale};
        loads := WithStage(loads, l, Rejected);
      } else {
        loads := WithStage(loads, l, Resolved);
      }
    }

    method Apply(locale: string, persist: bool) returns (request: nat)
      requires Valid()
      modifies this`latestRequestId, this`messageLoadByLocale, this`loads, this`requests
      ensures Valid() && Contents() == Step(old(Contents()), fallback, Call(locale, persist))
      ensures request == |old(requests)|
    {
      StepKeeps(Contents(), fallback, Call(locale, persist));
      request := latestRequestId;
      latestRequestId := latestRequestId + 1;
      var base := StartLoad(fallback);
      var own := StartLoad(locale);
      requests := requests + [Request(locale, persist, base, own, Waiting)];
    }

    /** Requests a locale; one that is not available is refused and changes nothing. */
    method SetLocale(locale: string) returns (request: Option<nat>)
      requires Valid()
      modifies this`latestRequestId, this`messageLoadByLocale, this`loads, this`requests
      ensures Valid() && (request.Some? <==> locale in availableLocales)
      ensures Contents() ==
        if request.Some? then Step(old(Contents()), fallback, Call(locale, true)) else old(Contents())
    {
      if locale !in availableLocales {
        return None;
      }
      var r := Apply(locale, true);
      request := Some(r);
    }

    /** The rest of a request once both its loads have succeeded or one of them has failed. */
    method Continue(r: nat, persistFails: bool)
      requires Valid() && Enabled(Contents(), Resume(r, persistFails))
      modifies this`requests, this`applied, this`active, this`stored
      ensures Valid() && Contents() == Step(old(Contents()), fallback, Resume(r, persistFails))
    {
      ResumeKeeps(Contents(), fallback, r, persistFails);
      ghost var next := Resumed(Contents(), r, persistFails);
      var request := requests[r];
      var requestId := r + 1;
      var latestSwitch := latestRequestId - 1;
      if loads[request.base].stage.Rejected? || loads[request.own].stage.Rejected? {
        SettleRequest(r, if requestId != latestRequestId then Adopted(latestSwitch) else Failed);
      } else if requestId != latestRequestId {
        SettleRequest(r, Adopted(latestSwitch));
      } else {
        Activate(r, persistFails);
      }
      assert Contents() == next;
    }

    /** Makes the locale of the request active and stores it if asked to; a failure to store it is only reported. */
    method Activate(r: nat, persistFails: bool)
      requires r < |requests|
      modifies this`requests, this`applied, this`active, this`stored
      ensures Contents() == Activated(old(Contents()), r, persistFails)
    {
      applied, active := applied + [r], requests[r].locale;
      stored := if requests[r].persist && !persistFails then Some(r) else stored;
      SettleRequest(r, Applied);
    }

    method SettleRequest(r: nat, phase: Phase)
      requires r < |requests|
      modifies this`requests
      ensures Contents() == WithPhase(old(Contents()), r, phase)
    {
      requests := requests[r := requests[r].(phase := phase)];
    }
  }
}
