/**
 The nested parsers for USB configuration descriptors (`parse_endpoint`,
 `parse_interface` and `parse_configuration` in
 tools/wishbone-utils/wishbone-tool/crates/libusb-sys/libusb/libusb/descriptor.c;
 sections 9.6.3, 9.6.5 and 9.6.6 of USB 2.0).  The copies the parsers make are
 represented by the slices of the buffer they copy.
 */
module Usb {
  type byte = x: int | 0 <= x < 256

  const DT_DEVICE: byte := 1
  const DT_CONFIG: byte := 2
  const DT_INTERFACE: byte := 4
  const DT_ENDPOINT: byte := 5
  const MAX_ENDPOINTS: nat := 32
  const MAX_INTERFACES: nat := 32

  datatype Option<T> = None | Some(value: T)

  datatype Slice = Slice(from: nat, len: nat)

  datatype Endpoint = Endpoint(desc: Slice, extra: Slice)

  /** One alternate setting; `endpoints` is `None` where the C array is a null pointer. */
  datatype Alt = Alt(desc: Slice, extra: Slice, numEndpoints: nat, endpoints: Option<seq<Endpoint>>)

  datatype Config = Config(desc: Slice, extra: Slice, interfaces: seq<seq<Alt>>)

  // ---------- Skipping class and vendor descriptors ----------

  datatype Stop = Exhausted | Invalid | Short | Proper | More

  /** What the skipping loop sees at `p`. */
  function StopAt(buf: seq<byte>, p: nat): Stop
    requires p <= |buf|
  {
    if |buf| - p < 2 then Exhausted
    else if buf[p] < 2 then Invalid
    else if buf[p] > |buf| - p then Short
    else if buf[p + 1] in {DT_DEVICE, DT_CONFIG, DT_INTERFACE, DT_ENDPOINT} then Proper
    else More
  }

  /** Where skipping from `at` ends. */
  function SkipEnd(buf: seq<byte>, at: nat): (p: nat)
    requires at <= |buf|
    ensures at <= p <= |buf| && StopAt(buf, p) != More
    decreases |buf| - at
  {
    if StopAt(buf, at) == More then SkipEnd(buf, at + buf[at]) else at
  }

  method Skip(buf: seq<byte>, at: nat) returns (p: nat)
    requires at <= |buf|
    ensures p == SkipEnd(buf, at)
  {
    p := at;
    while StopAt(buf, p) == More
      invariant p <= |buf| && SkipEnd(buf, p) == SkipEnd(buf, at)
      decreases |buf| - p
    {
      p := p + buf[p];
    }
  }

  /** A region made of whole descriptors, none of them of a standard type. */
  predicate Skippable(buf: seq<byte>, from: nat, to: nat)
    requires from <= |buf|
    decreases |buf| - from
  {
    from == to || (StopAt(buf, from) == More && Skippable(buf, from + buf[from], to))
  }

  lemma {:induction false} SkipsExactly(buf: seq<byte>, at: nat)
    requires at <= |buf|
    ensures Skippable(buf, at, SkipEnd(buf, at))
    decreases |buf| - at
  {
    if StopAt(buf, at) == More {
      SkipsExactly(buf, at + buf[at]);
    }
  }

  /** Whole descriptors of class or vendor types, one after the other. */
  predicate Extras(buf: seq<byte>, from: nat, to: nat)
    decreases |buf| - from
  {
    || from == to
    || (from + 2 <= |buf| && buf[from] >= 2 && from + buf[from] <= |buf| && buf[from + 1] !in {1, 2, 4, 5}
        && Extras(buf, from + buf[from], to))
  }

  /** Skipping passes over the descriptors that are not of a standard type, and stops for
      exactly these reasons. */
  lemma {:induction false} SkipIff(buf: seq<byte>, at: nat, p: nat, stop: Stop)
    requires at <= |buf|
    ensures SkipEnd(buf, at) == p && StopAt(buf, SkipEnd(buf, at)) == stop <==>
            && p <= |buf| && Extras(buf, at, p)
            && match stop
               case Exhausted => |buf| - p < 2
               case Invalid => |buf| - p >= 2 && buf[p] < 2
               case Short => |buf| - p >= 2 && buf[p] >= 2 && buf[p] > |buf| - p
               case Proper => |buf| - p >= 2 && 2 <= buf[p] <= |buf| - p && buf[p + 1] in {1, 2, 4, 5}
               case More => false
    decreases |buf| - at
  {
    if StopAt(buf, at) == More {
      SkipIff(buf, at + buf[at], p, stop);
    }
  }

  lemma {:induction false} SkipUnique(buf: seq<byte>, at: nat, p: nat)
    requires at <= |buf| && p <= |buf| && Skippable(buf, at, p) && StopAt(buf, p) != More
    ensures p == SkipEnd(buf, at)
    decreases |buf| - at
  {
    if at != p {
      SkipUnique(buf, at + buf[at], p);
    }
  }

  // ---------- Endpoints ----------

  datatype EndpointResult = EndpointError | NoEndpoint | OneEndpoint(e: Endpoint, p: nat)

  /** `parse_endpoint`; a short descriptor among the extras drops them all. */
  function EndpointAt(buf: seq<byte>, at: nat): (r: EndpointResult)
    requires at <= |buf|
    ensures r.OneEndpoint? ==> at < r.p <= |buf|
  {
    if |buf| - at < 2 then EndpointError
    else if buf[at + 1] != DT_ENDPOINT || buf[at] > |buf| - at then NoEndpoint
    else if buf[at] < 7 then EndpointError
    else
      var begin := at + buf[at];
      var p := SkipEnd(buf, begin);
      if StopAt(buf, p) == Invalid then EndpointError
      else OneEndpoint(Endpoint(Slice(at, buf[at]), Slice(begin, if StopAt(buf, p) == Short then 0 else p - begin)), p)
  }

  method ParseEndpoint(buf: seq<byte>, at: nat) returns (r: EndpointResult)
    requires at <= |buf|
    ensures r == EndpointAt(buf, at)
  {
    if |buf| - at < 2 {
      return EndpointError;
    }
    if buf[at + 1] != DT_ENDPOINT {
      return NoEndpoint;
    }
    if buf[at] > |buf| - at {
      return NoEndpoint;
    }
    if buf[at] < 7 {
      return EndpointError;
    }
    var begin := at + buf[at];
    var p := Skip(buf, begin);
    var stop := StopAt(buf, p);
    if stop == Invalid {
      return EndpointError;
    }
    return OneEndpoint(Endpoint(Slice(at, buf[at]), Slice(begin, if stop == Short then 0 else p - begin)), p);
  }

  /** An endpoint is delivered exactly when a whole descriptor of its type, at least as
      long as the standard's, is followed by extra descriptors up to `p`, where they stop
      for any reason but an invalid length. */
  lemma EndpointIff(buf: seq<byte>, at: nat, e: Endpoint, p: nat)
    requires at <= |buf|
    ensures EndpointAt(buf, at) == OneEndpoint(e, p) <==>
            && at + 2 <= |buf| && buf[at + 1] == 5 && 7 <= buf[at] <= |buf| - at
            && at + buf[at] <= p <= |buf| && Skippable(buf, at + buf[at], p)
            && StopAt(buf, p) in {Exhausted, Short, Proper}
            && e.desc == Slice(at, buf[at])
            && e.extra == Slice(at + buf[at], if StopAt(buf, p) == Short then 0 else p - at - buf[at])
  {
    hide SkipEnd, StopAt, Skippable;
    if at + 2 <= |buf| && 7 <= buf[at] <= |buf| - at {
      var begin := at + buf[at];
      SkipsExactly(buf, begin);
      if p <= |buf| && Skippable(buf, begin, p) && StopAt(buf, p) != More {
        SkipUnique(buf, begin, p);
      }
    }
  }

  datatype EndpointsResult = EndpointsError | Endpoints(list: seq<Endpoint>, p: nat)

  /** Up to `k` endpoints. */
  function EndpointsAt(buf: seq<byte>, at: nat, k: nat): (r: EndpointsResult)
    requires at <= |buf|
    ensures r.Endpoints? ==> at <= r.p <= |buf| && |r.list| <= k
    decreases k
  {
    if k == 0 then Endpoints([], at)
    else
      match EndpointAt(buf, at)
      case EndpointError => EndpointsError
      case NoEndpoint => Endpoints([], at)
      case OneEndpoint(e, p) => After([e], EndpointsAt(buf, p, k - 1))
  }

  function After(front: seq<Endpoint>, r: EndpointsResult): EndpointsResult {
    if r.EndpointsError? then r else Endpoints(front + r.list, r.p)
  }

  method ParseEndpoints(buf: seq<byte>, at: nat, count: nat) returns (r: EndpointsResult)
    requires at <= |buf|
    ensures r == EndpointsAt(buf, at, count)
  {
    hide EndpointAt;
    var list: seq<Endpoint>, p: nat, i := [], at, 0;
    while i < count
      invariant i <= count && p <= |buf|
      invariant After(list, EndpointsAt(buf, p, count - i)) == EndpointsAt(buf, at, count)
    {
      var one := ParseEndpoint(buf, p);
      if one == EndpointError {
        return EndpointsError;
      }
      if one == NoEndpoint {
        return Endpoints(list, p);
      }
      ghost var rest := EndpointsAt(buf, one.p, count - i - 1);
      assert rest.Endpoints? ==> list + ([one.e] + rest.list) == list + [one.e] + rest.list;
      list, p, i := list + [one.e], one.p, i + 1;
    }
    return Endpoints(list, p);
  }

  // ---------- Interfaces ----------

  datatype AltResult = AltError | NoAlt | CutAlt(a: Alt, p: nat) | OneAlt(a: Alt, p: nat)

  /** One round of the loop in `parse_interface`; `CutAlt` is its early return on a
      short descriptor, which leaves the endpoints unset. */
  function AltAt(buf: seq<byte>, at: nat): (r: AltResult)
    requires at + 9 <= |buf|
    ensures r.CutAlt? || r.OneAlt? ==> at < r.p <= |buf|
  {
    if buf[at + 1] != DT_INTERFACE then NoAlt
    else if buf[at] < 9 then AltError
    else if buf[at] > |buf| - at then NoAlt
    else if buf[at + 4] > MAX_ENDPOINTS then AltError
    else
      var desc, begin, count := Slice(at, buf[at]), at + buf[at], buf[at + 4];
      var q := SkipEnd(buf, begin);
      if StopAt(buf, q) == Invalid then AltError
      else if StopAt(buf, q) == Short then CutAlt(Alt(desc, Slice(begin, 0), count, None), q)
      else if count == 0 then OneAlt(Alt(desc, Slice(begin, q - begin), 0, None), q)
      else
        match EndpointsAt(buf, q, count)
        case EndpointsError => AltError
        case Endpoints(list, p) => OneAlt(Alt(desc, Slice(begin, q - begin), |list|, Some(list)), p)
  }

  datatype InterfaceResult = InterfaceError | Interface(alts: seq<Alt>, p: nat)

  /** Whether another alternate setting of interface `number` starts at `p`. */
  predicate Alternate(buf: seq<byte>, p: nat, number: byte)
    requires p <= |buf|
  {
    |buf| - p >= 9 && buf[p + 1] == DT_INTERFACE && buf[p + 2] == number
  }

  /** `parse_interface`; the first setting fixes the interface number. */
  function InterfaceAt(buf: seq<byte>, at: nat, first: Option<byte>): (r: InterfaceResult)
    requires at <= |buf|
    ensures r.Interface? ==> at <= r.p <= |buf|
    decreases |buf| - at
  {
    if |buf| - at < 9 then Interface([], at)
    else
      match AltAt(buf, at)
      case AltError => InterfaceError
      case NoAlt => Interface([], at)
      case CutAlt(a, p) => Interface([a], p)
      case OneAlt(a, p) =>
        var number := if first.Some? then first.value else buf[at + 2];
        if Alternate(buf, p, number) then Behind([a], InterfaceAt(buf, p, Some(number))) else Interface([a], p)
  }

  function Behind(front: seq<Alt>, r: InterfaceResult): InterfaceResult {
    if r.InterfaceError? then r else Interface(front + r.alts, r.p)
  }

  method ParseInterface(buf: seq<byte>, at: nat) returns (r: InterfaceResult)
    requires at <= |buf|
    ensures r == InterfaceAt(buf, at, None)
  {
    hide AltAt, InterfaceAt;
    var alts: seq<Alt>, p: nat, first: Option<byte> := [], at, None;
    while |buf| - p >= 9
      invariant p <= |buf|
      invariant Behind(alts, InterfaceAt(buf, p, first)) == InterfaceAt(buf, at, None)
      decreases |buf| - p
    {
      InterfaceTurn(buf, p, first, alts);
      var one := ParseAlt(buf, p);
      match one {
        case AltError => return InterfaceError;
        case NoAlt => return Interface(alts, p);
        case CutAlt(a, q) => return Interface(alts + [a], q);
        case OneAlt(a, q) =>
          var number := if first.Some? then first.value else buf[p + 2];
          if !Alternate(buf, q, number) {
            return Interface(alts + [a], q);
          }
          alts, p, first := alts + [a], q, Some(number);
      }
    }
    InterfaceEnd(buf, p, first, alts);
    return Interface(alts, p);
  }

  lemma InterfaceEnd(buf: seq<byte>, p: nat, first: Option<byte>, alts: seq<Alt>)
    requires p <= |buf| < p + 9
    ensures Behind(alts, InterfaceAt(buf, p, first)) == Interface(alts, p)
  {
  }

  /** One turn of the loop, with the settings of the earlier turns in front. */
  lemma InterfaceTurn(buf: seq<byte>, p: nat, first: Option<byte>, alts: seq<Alt>)
    requires p + 9 <= |buf|
    ensures Behind(alts, InterfaceAt(buf, p, first)) ==
            match AltAt(buf, p)
            case AltError => InterfaceError
            case NoAlt => Interface(alts, p)
            case CutAlt(a, q) => Interface(alts + [a], q)
            case OneAlt(a, q) =>
              var number := if first.Some? then first.value else buf[p + 2];
              if Alternate(buf, q, number) then Behind(alts + [a], InterfaceAt(buf, q, Some(number)))
              else Interface(alts + [a], q)
  {
    hide AltAt;
    match AltAt(buf, p)
    case OneAlt(a, q) =>
      var number := if first.Some? then first.value else buf[p + 2];
      if Alternate(buf, q, number) {
        var rest := InterfaceAt(buf, q, Some(number));
        assert rest.Interface? ==> alts + ([a] + rest.alts) == alts + [a] + rest.alts;
      }
    case _ =>
  }

  method ParseAlt(buf: seq<byte>, at: nat) returns (r: AltResult)
    requires at + 9 <= |buf|
    ensures r == AltAt(buf, at)
  {
    if buf[at + 1] != DT_INTERFACE {
      return NoAlt;
    }
    if buf[at] < 9 {
      return AltError;
    }
    if buf[at] > |buf| - at {
      return NoAlt;
    }
    if buf[at + 4] > MAX_ENDPOINTS {
      return AltError;
    }
    var desc, begin, count := Slice(at, buf[at]), at + buf[at], buf[at + 4];
    var q := Skip(buf, begin);
    var stop := StopAt(buf, q);
    if stop == Invalid {
      return AltError;
    }
    if stop == Short {
      return CutAlt(Alt(desc, Slice(begin, 0), count, None), q);
    }
    if count == 0 {
      return OneAlt(Alt(desc, Slice(begin, q - begin), 0, None), q);
    }
    var eps := ParseEndpoints(buf, q, count);
    if eps == EndpointsError {
      return AltError;
    }
    return OneAlt(Alt(desc, Slice(begin, q - begin), |eps.list|, Some(eps.list)), eps.p);
  }

  /** A setting is delivered exactly when a whole interface descriptor announces at most 32
      endpoints; where its extra descriptors run into a short one, without them. */
  lemma AltIff(buf: seq<byte>, at: nat, a: Alt, p: nat)
    requires at + 9 <= |buf|
    ensures var begin := at + buf[at];
            var head := buf[at + 1] == 4 && 9 <= buf[at] <= |buf| - at && buf[at + 4] <= 32;
            && (AltAt(buf, at) == CutAlt(a, p) <==>
                  && head && SkipEnd(buf, begin) == p && StopAt(buf, p) == Short
                  && a == Alt(Slice(at, buf[at]), Slice(begin, 0), buf[at + 4], None))
            && (AltAt(buf, at) == OneAlt(a, p) <==>
                  && head && StopAt(buf, SkipEnd(buf, begin)) in {Exhausted, Proper}
                  && a.desc == Slice(at, buf[at]) && a.extra == Slice(begin, SkipEnd(buf, begin) - begin)
                  && if buf[at + 4] == 0 then p == SkipEnd(buf, begin) && a.numEndpoints == 0 && a.endpoints == None
                     else
                       && a.endpoints.Some? && a.numEndpoints == |a.endpoints.value|
                       && EndpointsAt(buf, SkipEnd(buf, begin), buf[at + 4]) == Endpoints(a.endpoints.value, p))
  {
    hide SkipEnd, EndpointsAt, StopAt;
  }

  // ---------- Configurations ----------

  datatype BodyResult = BodyError | Body(extra: Slice, interfaces: seq<seq<Alt>>, p: nat)

  /** The loop of `parse_configuration`, for `k` more interfaces from `at`; only the
      first non-empty run of extra descriptors is kept. */
  function BodyAt(buf: seq<byte>, at: nat, k: nat, extra: Slice): (r: BodyResult)
    requires at <= |buf|
    ensures r.Body? ==> at <= r.p <= |buf|
    decreases k
  {
    if k == 0 then Body(extra, [], at)
    else
      var q := SkipEnd(buf, at);
      if StopAt(buf, q) == Invalid then BodyError
      else if StopAt(buf, q) == Short then Body(extra, [], q)
      else
        var extra' := if extra.len == 0 then Slice(at, q - at) else extra;
        match InterfaceAt(buf, q, None)
        case InterfaceError => BodyError
        case Interface(alts, p) =>
          if p == q then Body(extra', [], q) else Ahead([alts], BodyAt(buf, p, k - 1, extra'))
  }

  function Ahead(front: seq<seq<Alt>>, r: BodyResult): BodyResult {
    if r.BodyError? then r else r.(interfaces := front + r.interfaces)
  }

  datatype ConfigResult = ConfigError | Parsed(config: Config, left: nat)

  function ConfigSpec(buf: seq<byte>): (r: ConfigResult)
    ensures r.Parsed? ==> r.left <= |buf|
  {
    if |buf| < 9 || buf[1] != DT_CONFIG || buf[0] < 9 || buf[0] > |buf| || buf[4] > MAX_INTERFACES then ConfigError
    else
      match BodyAt(buf, buf[0], buf[4], Slice(buf[0], 0))
      case BodyError => ConfigError
      case Body(extra, list, p) => Parsed(Config(Slice(0, buf[0]), extra, list), |buf| - p)
  }

  /** `parse_configuration`: the number returned is what is left of the buffer. */
  method ParseConfiguration(buf: seq<byte>) returns (r: ConfigResult)
    ensures r == ConfigSpec(buf)
  {
    hide InterfaceAt, SkipEnd, StopAt, BodyAt;
    if |buf| < 9 || buf[1] != DT_CONFIG || buf[0] < 9 || buf[0] > |buf| || buf[4] > MAX_INTERFACES {
      return ConfigError;
    }
    var n, p: nat, i := buf[4], buf[0], 0;
    var extra, list: seq<seq<Alt>> := Slice(p, 0), [];
    while i < n
      invariant i <= n && p <= |buf|
      invariant Ahead(list, BodyAt(buf, p, n - i, extra)) == BodyAt(buf, buf[0], n, Slice(buf[0], 0))
    {
      BodyTurn(buf, p, n - i, extra, list);
      var q := Skip(buf, p);
      var stop := StopAt(buf, q);
      if stop == Invalid {
        return ConfigError;
      }
      if stop == Short {
        return Parsed(Config(Slice(0, buf[0]), extra, list), |buf| - q);
      }
      if extra.len == 0 {
        extra := Slice(p, q - p);
      }
      var one := ParseInterface(buf, q);
      if one == InterfaceError {
        return ConfigError;
      }
      if one.p == q {
        return Parsed(Config(Slice(0, buf[0]), extra, list), |buf| - q);
      }
      list, p, i := list + [one.alts], one.p, i + 1;
    }
    BodyEnd(buf, p, extra, list);
    return Parsed(Config(Slice(0, buf[0]), extra, list), |buf| - p);
  }

  lemma BodyEnd(buf: seq<byte>, p: nat, extra: Slice, list: seq<seq<Alt>>)
    requires p <= |buf|
    ensures Ahead(list, BodyAt(buf, p, 0, extra)) == Body(extra, list, p)
  {
  }

  /** One turn of the loop, with the interfaces of the earlier turns in front. */
  lemma BodyTurn(buf: seq<byte>, p: nat, k: nat, extra: Slice, list: seq<seq<Alt>>)
    requires p <= |buf| && k > 0
    ensures var q, all := SkipEnd(buf, p), Ahead(list, BodyAt(buf, p, k, extra));
            var stop, one := StopAt(buf, q), InterfaceAt(buf, q, None);
            var extra' := if extra.len == 0 then Slice(p, q - p) else extra;
            all == if stop == Invalid then BodyError
                   else if stop == Short then Body(extra, list, q)
                   else if one.InterfaceError? then BodyError
                   else if one.p == q then Body(extra', list, q)
                   else Ahead(list + [one.alts], BodyAt(buf, one.p, k - 1, extra'))
  {
    hide InterfaceAt, SkipEnd, StopAt;
    var q := SkipEnd(buf, p);
    var one, extra' := InterfaceAt(buf, q, None), if extra.len == 0 then Slice(p, q - p) else extra;
    if one.Interface? {
      var rest := BodyAt(buf, one.p, k - 1, extra');
      assert rest.Body? ==> list + ([one.alts] + rest.interfaces) == list + [one.alts] + rest.interfaces;
    }
  }

  // ---------- Where everything comes from ----------

  /** Slices one after the other, without overlap, between `from` and `to`. */
  predicate InOrder(s: seq<Slice>, from: nat, to: nat)
    decreases |s|
  {
    if s == [] then from <= to
    else from <= s[0].from && InOrder(s[1..], s[0].from + s[0].len, to)
  }

  lemma {:induction false} InOrderAppend(a: seq<Slice>, b: seq<Slice>, from: nat, mid: nat, to: nat)
    requires InOrder(a, from, mid) && InOrder(b, mid, to)
    ensures InOrder(a + b, from, to)
    decreases |a|
  {
    if a == [] {
      assert a + b == b;
      Earlier(b, from, mid, to);
    } else {
      InOrderAppend(a[1..], b, a[0].from + a[0].len, mid, to);
      assert (a + b)[1..] == a[1..] + b;
    }
  }

  lemma Earlier(s: seq<Slice>, from: nat, mid: nat, to: nat)
    requires from <= mid && InOrder(s, mid, to)
    ensures InOrder(s, from, to)
  {
  }

  function EndpointSlices(list: seq<Endpoint>): seq<Slice> {
    if list == [] then [] else [list[0].desc, list[0].extra] + EndpointSlices(list[1..])
  }

  function AltSlices(a: Alt): seq<Slice> {
    [a.desc, a.extra] + if a.endpoints.Some? then EndpointSlices(a.endpoints.value) else []
  }

  function AltsSlices(alts: seq<Alt>): seq<Slice> {
    if alts == [] then [] else AltSlices(alts[0]) + AltsSlices(alts[1..])
  }

  function AllSlices(list: seq<seq<Alt>>): seq<Slice> {
    if list == [] then [] else AltsSlices(list[0]) + AllSlices(list[1..])
  }

  lemma {:induction false} EndpointsInOrder(buf: seq<byte>, at: nat, k: nat)
    requires at <= |buf|
    ensures var r := EndpointsAt(buf, at, k); r.Endpoints? ==> InOrder(EndpointSlices(r.list), at, r.p)
    decreases k
  {
    if k > 0 {
      var one := EndpointAt(buf, at);
      if one.OneEndpoint? {
        EndpointsInOrder(buf, one.p, k - 1);
        var r := EndpointsAt(buf, one.p, k - 1);
        if r.Endpoints? {
          assert ([one.e] + r.list)[1..] == r.list;
          var two := [one.e.desc, one.e.extra];
          assert two[1..] == [one.e.extra] && two[1..][1..] == [];
          assert InOrder(two[1..], one.e.desc.from + one.e.desc.len, one.p);
          InOrderAppend(two, EndpointSlices(r.list), at, one.p, r.p);
        }
      }
    }
  }

  lemma AltInOrder(buf: seq<byte>, at: nat)
    requires at + 9 <= |buf|
    ensures var r := AltAt(buf, at); r.OneAlt? || r.CutAlt? ==> InOrder(AltSlices(r.a), at, r.p)
  {
    var r := AltAt(buf, at);
    if r.OneAlt? || r.CutAlt? {
      var a := r.a;
      var two, q := [a.desc, a.extra], SkipEnd(buf, at + buf[at]);
      hide SkipEnd;
      assert two[1..] == [a.extra] && two[1..][1..] == [];
      assert InOrder(two[1..], a.desc.from + a.desc.len, q);
      assert InOrder(two, at, q);
      if a.endpoints.Some? {
        EndpointsInOrder(buf, q, buf[at + 4]);
        InOrderAppend(two, EndpointSlices(a.endpoints.value), at, q, r.p);
      } else {
        assert two + [] == two;
      }
    }
  }

  lemma {:induction false} InterfaceInOrder(buf: seq<byte>, at: nat, first: Option<byte>)
    requires at <= |buf|
    ensures var r := InterfaceAt(buf, at, first); r.Interface? ==> InOrder(AltsSlices(r.alts), at, r.p)
    decreases |buf| - at
  {
    hide AltAt, AltSlices;
    if |buf| - at >= 9 {
      AltInOrder(buf, at);
      var one := AltAt(buf, at);
      if one.OneAlt? || one.CutAlt? {
        assert [one.a][1..] == [] && AltSlices(one.a) + [] == AltSlices(one.a);
        if one.OneAlt? {
          var number := if first.Some? then first.value else buf[at + 2];
          if Alternate(buf, one.p, number) {
            InterfaceInOrder(buf, one.p, Some(number));
            var r := InterfaceAt(buf, one.p, Some(number));
            if r.Interface? {
              assert ([one.a] + r.alts)[1..] == r.alts;
              InOrderAppend(AltSlices(one.a), AltsSlices(r.alts), at, one.p, r.p);
            }
          }
        }
      }
    }
  }

  /** A slice that meets none of the others. */
  predicate Apart(x: Slice, s: seq<Slice>) {
    forall i :: 0 <= i < |s| ==> s[i].from + s[i].len <= x.from || x.from + x.len <= s[i].from
  }

  lemma {:induction false} InOrderApart(s: seq<Slice>, from: nat, to: nat, x: Slice)
    requires InOrder(s, from, to) && (x.from + x.len <= from || to <= x.from)
    ensures from <= to && Apart(x, s)
    decreases |s|
  {
    if s != [] {
      InOrderApart(s[1..], s[0].from + s[0].len, to, Slice(to, 0));
      InOrderApart(s[1..], s[0].from + s[0].len, to, x);
      forall i | 0 <= i < |s|
        ensures s[i].from + s[i].len <= x.from || x.from + x.len <= s[i].from
      {
        if i > 0 {
          assert s[i] == s[1..][i - 1];
        }
      }
    }
  }

  /** The extra descriptors kept for the configuration are one skipped run. */
  lemma {:induction false} BodyExtra(buf: seq<byte>, at: nat, k: nat, extra: Slice)
    requires at <= |buf| && extra.from + extra.len <= at
    ensures var r := BodyAt(buf, at, k, extra);
            r.Body? ==>
              && r.extra.from + r.extra.len <= r.p
              && (r.extra == extra || (at <= r.extra.from && Skippable(buf, r.extra.from, r.extra.from + r.extra.len)))
    decreases k
  {
    hide InterfaceAt, SkipEnd, StopAt, Skippable;
    if k > 0 && BodyAt(buf, at, k, extra).Body? {
      var q := SkipEnd(buf, at);
      SkipsExactly(buf, at);
      var extra' := if extra.len == 0 then Slice(at, q - at) else extra;
      var one := InterfaceAt(buf, q, None);
      if StopAt(buf, q) != Short && one.p != q {
        BodyExtra(buf, one.p, k - 1, extra');
      }
    }
  }

  lemma {:induction false} BodyInOrder(buf: seq<byte>, at: nat, k: nat, extra: Slice)
    requires at <= |buf| && extra.from + extra.len <= at
    ensures var r := BodyAt(buf, at, k, extra);
            r.Body? ==> InOrder(AllSlices(r.interfaces), at, r.p) && Apart(r.extra, AllSlices(r.interfaces))
    decreases k
  {
    hide InterfaceAt, SkipEnd, AltsSlices, StopAt, InOrder, Apart, Skippable;
    var r := BodyAt(buf, at, k, extra);
    if r.Body? {
      NoSlices(r.extra, at, r.p);
      if k > 0 {
        var q := SkipEnd(buf, at);
        var extra' := if extra.len == 0 then Slice(at, q - at) else extra;
        var one := InterfaceAt(buf, q, None);
        if StopAt(buf, q) != Short && one.p != q {
          BodyExtra(buf, one.p, k - 1, extra');
          BodyInOrder(buf, one.p, k - 1, extra');
          BodyStep(buf, at, q, one, BodyAt(buf, one.p, k - 1, extra'), extra');
        }
      }
    }
  }

  lemma NoSlices(x: Slice, from: nat, to: nat)
    requires from <= to
    ensures InOrder([], from, to) && Apart(x, [])
  {
  }

  lemma NothingSkipped(buf: seq<byte>, at: nat)
    requires at <= |buf|
    ensures Skippable(buf, at, at)
  {
  }

  /** One interface in front of the rest. */
  lemma BodyStep(buf: seq<byte>, at: nat, q: nat, one: InterfaceResult, r: BodyResult, extra: Slice)
    requires at <= q <= |buf| && one == InterfaceAt(buf, q, None) && one.Interface? && r.Body?
    requires extra.from + extra.len <= q && (r.extra == extra || one.p <= r.extra.from)
    requires InOrder(AllSlices(r.interfaces), one.p, r.p) && Apart(r.extra, AllSlices(r.interfaces))
    ensures var all := AllSlices([one.alts] + r.interfaces); InOrder(all, at, r.p) && Apart(r.extra, all)
  {
    hide InterfaceAt, AltsSlices, InOrder, Apart;
    InterfaceInOrder(buf, q, None);
    assert ([one.alts] + r.interfaces)[1..] == r.interfaces;
    var a, b := AltsSlices(one.alts), AllSlices(r.interfaces);
    Earlier(a, at, q, one.p);
    InOrderAppend(a, b, at, one.p, r.p);
    InOrderApart(a, q, one.p, r.extra);
    ApartAppend(r.extra, a, b);
  }

  lemma ApartAppend(x: Slice, a: seq<Slice>, b: seq<Slice>)
    requires Apart(x, a) && Apart(x, b)
    ensures Apart(x, a + b)
  {
  }

  /** For any buffer: every descriptor, every run of extra descriptors and every
      endpoint of the tree comes from its own slice of what was consumed, in order and
      without overlap, and what is left over starts right behind. */
  lemma ConfigInOrder(buf: seq<byte>)
    ensures var r := ConfigSpec(buf);
            r.Parsed? ==>
              && r.config.desc == Slice(0, buf[0])
              && InOrder(AllSlices(r.config.interfaces), buf[0], |buf| - r.left)
              && buf[0] <= r.config.extra.from && r.config.extra.from + r.config.extra.len <= |buf| - r.left
              && Apart(r.config.extra, AllSlices(r.config.interfaces))
              && Skippable(buf, r.config.extra.from, r.config.extra.from + r.config.extra.len)
              && |r.config.interfaces| <= buf[4] <= MAX_INTERFACES
  {
    hide BodyAt, InOrder, Apart, Skippable, AllSlices;
    if ConfigSpec(buf).Parsed? {
      NothingSkipped(buf, buf[0]);
      BodyExtra(buf, buf[0], buf[4], Slice(buf[0], 0));
      BodyInOrder(buf, buf[0], buf[4], Slice(buf[0], 0));
      BodyCount(buf, buf[0], buf[4], Slice(buf[0], 0));
    }
  }

  /** A configuration is parsed exactly when its descriptor is whole, announces at most 32
      interfaces, and the interfaces behind it can be parsed. */
  lemma HeaderIff(buf: seq<byte>)
    ensures ConfigSpec(buf).Parsed? <==>
            && |buf| >= 9 && 9 <= buf[0] <= |buf| && buf[1] == 2 && buf[4] <= 32
            && BodyAt(buf, buf[0], buf[4], Slice(buf[0], 0)).Body?
  {
    hide BodyAt;
  }

  lemma {:induction false} BodyCount(buf: seq<byte>, at: nat, k: nat, extra: Slice)
    requires at <= |buf|
    ensures var r := BodyAt(buf, at, k, extra); r.Body? ==> |r.interfaces| <= k
    decreases k
  {
    hide InterfaceAt, SkipEnd, StopAt;
    if k > 0 {
      var q := SkipEnd(buf, at);
      var extra' := if extra.len == 0 then Slice(at, q - at) else extra;
      var one := InterfaceAt(buf, q, None);
      if one.Interface? && one.p != q {
        BodyCount(buf, one.p, k - 1, extra');
      }
    }
  }

  // ---------- Nothing is lost, but for extras cut short ----------

  /** Slices that cover `from` to `to` without gaps. */
  predicate Tiles(s: seq<Slice>, from: nat, to: nat)
    decreases |s|
  {
    if s == [] then from == to else s[0].from == from && Tiles(s[1..], from + s[0].len, to)
  }

  lemma {:induction false} TilesAppend(a: seq<Slice>, b: seq<Slice>, from: nat, mid: nat, to: nat)
    requires Tiles(a, from, mid) && Tiles(b, mid, to)
    ensures Tiles(a + b, from, to)
    decreases |a|
  {
    if a == [] {
      assert a + b == b;
    } else {
      TilesAppend(a[1..], b, from + a[0].len, mid, to);
      assert (a + b)[1..] == a[1..] + b;
    }
  }

  lemma TwoTile(x: Slice, y: Slice)
    requires x.from + x.len == y.from
    ensures Tiles([x, y], x.from, y.from + y.len)
  {
    assert [x, y][1..] == [y] && [y][1..] == [];
  }

  /** Between `m` and `p` only extra descriptors that end in a short one. */
  predicate Lost(buf: seq<byte>, m: nat, p: nat) {
    m <= p <= |buf| && (m == p || (Skippable(buf, m, p) && StopAt(buf, p) == Short))
  }

  /** Nothing parses at a short descriptor. */
  lemma ShortEnds(buf: seq<byte>, p: nat, k: nat, first: Option<byte>)
    requires p <= |buf| && StopAt(buf, p) == Short
    ensures EndpointsAt(buf, p, k) == Endpoints([], p) && InterfaceAt(buf, p, first) == Interface([], p)
  {
  }

  lemma {:induction false} EndpointsTile(buf: seq<byte>, at: nat, k: nat) returns (m: nat)
    requires at <= |buf| && EndpointsAt(buf, at, k).Endpoints?
    ensures var r := EndpointsAt(buf, at, k); Tiles(EndpointSlices(r.list), at, m) && Lost(buf, m, r.p)
    decreases k
  {
    hide SkipEnd, StopAt, Skippable;
    if k == 0 || EndpointAt(buf, at).NoEndpoint? {
      return at;
    }
    var e, p := EndpointAt(buf, at).e, EndpointAt(buf, at).p;
    SkipsExactly(buf, at + buf[at]);
    TwoTile(e.desc, e.extra);
    var r := EndpointsAt(buf, p, k - 1);
    assert ([e] + r.list)[1..] == r.list;
    if StopAt(buf, p) == Short {
      ShortEnds(buf, p, k - 1, None);
      m := e.extra.from;
      assert [e.desc, e.extra] + [] == [e.desc, e.extra];
    } else {
      m := EndpointsTile(buf, p, k - 1);
      TilesAppend([e.desc, e.extra], EndpointSlices(r.list), at, p, m);
    }
  }

  lemma AltTile(buf: seq<byte>, at: nat) returns (m: nat)
    requires at + 9 <= |buf| && (AltAt(buf, at).OneAlt? || AltAt(buf, at).CutAlt?)
    ensures var r := AltAt(buf, at); Tiles(AltSlices(r.a), at, m) && Lost(buf, m, r.p)
    ensures AltAt(buf, at).CutAlt? ==> StopAt(buf, AltAt(buf, at).p) == Short
  {
    hide SkipEnd, StopAt, Skippable;
    var r := AltAt(buf, at);
    var a, q := r.a, SkipEnd(buf, at + buf[at]);
    SkipsExactly(buf, at + buf[at]);
    TwoTile(a.desc, a.extra);
    if a.endpoints.Some? {
      m := EndpointsTile(buf, q, buf[at + 4]);
      TilesAppend([a.desc, a.extra], EndpointSlices(a.endpoints.value), at, q, m);
    } else {
      m := a.extra.from + a.extra.len;
      assert [a.desc, a.extra] + [] == [a.desc, a.extra];
    }
  }

  /** The slices of an interface's tree cover everything it consumed, except at most one
      run of extra descriptors, dropped because a short descriptor follows it. */
  lemma {:induction false} InterfaceTile(buf: seq<byte>, at: nat, first: Option<byte>) returns (m: nat)
    requires at <= |buf| && InterfaceAt(buf, at, first).Interface?
    ensures var r := InterfaceAt(buf, at, first); Tiles(AltsSlices(r.alts), at, m) && Lost(buf, m, r.p)
    decreases |buf| - at
  {
    hide AltAt, AltSlices, StopAt, Skippable;
    if |buf| - at < 9 || AltAt(buf, at).NoAlt? {
      return at;
    }
    var one := AltAt(buf, at);
    m := AltTile(buf, at);
    assert [one.a][1..] == [] && AltSlices(one.a) + [] == AltSlices(one.a);
    if one.OneAlt? {
      var number := if first.Some? then first.value else buf[at + 2];
      if Alternate(buf, one.p, number) {
        var r := InterfaceAt(buf, one.p, Some(number));
        assert ([one.a] + r.alts)[1..] == r.alts;
        if m != one.p {
          ShortEnds(buf, one.p, 0, Some(number));
        } else {
          m := InterfaceTile(buf, one.p, Some(number));
          TilesAppend(AltSlices(one.a), AltsSlices(r.alts), at, one.p, m);
        }
      }
    }
  }

  // ---------- Which settings belong together ----------

  /** The interface number of a setting. */
  function NumberOf(buf: seq<byte>, a: Alt): int { if a.desc.from + 2 < |buf| then buf[a.desc.from + 2] else -1 }

  /** An interface descriptor with this number starts at `p`, with room for all of it. */
  predicate Another(buf: seq<byte>, p: nat, number: int) {
    p + 9 <= |buf| && buf[p + 1] == 4 && buf[p + 2] == number
  }

  lemma {:induction false} EndpointsStop(buf: seq<byte>, at: nat, k: nat)
    requires at <= |buf| && StopAt(buf, at) != More && EndpointsAt(buf, at, k).Endpoints?
    ensures StopAt(buf, EndpointsAt(buf, at, k).p) != More
    decreases k
  {
    hide StopAt, SkipEnd;
    if k > 0 && EndpointAt(buf, at).OneEndpoint? {
      EndpointsStop(buf, EndpointAt(buf, at).p, k - 1);
    }
  }

  lemma AltStops(buf: seq<byte>, at: nat)
    requires at + 9 <= |buf| && (AltAt(buf, at).OneAlt? || AltAt(buf, at).CutAlt?)
    ensures var r := AltAt(buf, at);
            && buf[at + 1] == 4 && NumberOf(buf, r.a) == buf[at + 2] && StopAt(buf, r.p) != More
            && (r.CutAlt? ==> StopAt(buf, r.p) == Short)
  {
    hide StopAt, SkipEnd, EndpointsAt;
    var q := SkipEnd(buf, at + buf[at]);
    if StopAt(buf, q) != Invalid && StopAt(buf, q) != Short && buf[at + 4] > 0 {
      EndpointsStop(buf, q, buf[at + 4]);
    }
  }

  /** All settings of an interface have the number of the first, and it ends only before a
      short descriptor or where no setting with that number follows. */
  lemma {:induction false} InterfaceNumbers(buf: seq<byte>, at: nat, first: Option<byte>)
    requires at <= |buf| && InterfaceAt(buf, at, first).Interface?
    requires first.Some? ==> at + 9 <= |buf| && buf[at + 2] == first.value && buf[at + 1] == 4
    ensures var r := InterfaceAt(buf, at, first);
            && (r.alts == [] ==> r.p == at && (first.Some? ==> StopAt(buf, at) == Short))
            && (r.alts != [] ==> r.p > at && at + 9 <= |buf| && buf[at + 1] == 4 && StopAt(buf, r.p) != More)
            && (r.alts != [] ==> StopAt(buf, r.p) == Short || !Another(buf, r.p, buf[at + 2]))
            && (forall j :: 0 <= j < |r.alts| ==> NumberOf(buf, r.alts[j]) == buf[at + 2])
    decreases |buf| - at
  {
    hide AltAt, NumberOf, SkipEnd;
    if |buf| - at >= 9 {
      var one := AltAt(buf, at);
      if one.OneAlt? || one.CutAlt? {
        AltStops(buf, at);
      } else {
        NoAltMeans(buf, at);
      }
      if one.OneAlt? {
        var number := if first.Some? then first.value else buf[at + 2];
        if Alternate(buf, one.p, number) {
          InterfaceNumbers(buf, one.p, Some(number));
        }
      }
    }
  }

  lemma NoAltMeans(buf: seq<byte>, at: nat)
    requires at + 9 <= |buf| && AltAt(buf, at).NoAlt?
    ensures buf[at + 1] != 4 || StopAt(buf, at) == Short
  {
  }

  /** The settings of each interface of a body have one number, and neighbouring
      interfaces have different ones. */
  ghost predicate ByNumber(buf: seq<byte>, list: seq<seq<Alt>>) {
    && (forall i, j :: 0 <= i < |list| && 0 <= j < |list[i]| ==> NumberOf(buf, list[i][j]) == NumberOf(buf, list[i][0]))
    && (forall i :: 0 <= i < |list| ==> list[i] != [])
    && (forall i :: 0 < i < |list| ==> NumberOf(buf, list[i - 1][0]) != NumberOf(buf, list[i][0]))
  }

  lemma {:induction false} BodyNumbers(buf: seq<byte>, at: nat, k: nat, extra: Slice)
    requires at <= |buf| && BodyAt(buf, at, k, extra).Body?
    ensures var list := BodyAt(buf, at, k, extra).interfaces;
            && ByNumber(buf, list)
            && (list != [] ==>
                  && SkipEnd(buf, at) + 9 <= |buf| && StopAt(buf, SkipEnd(buf, at)) != Short
                  && buf[SkipEnd(buf, at) + 1] == 4 && NumberOf(buf, list[0][0]) == buf[SkipEnd(buf, at) + 2])
    decreases k
  {
    hide InterfaceAt, StopAt, NumberOf, SkipEnd;
    if k > 0 {
      var q := SkipEnd(buf, at);
      var extra' := if extra.len == 0 then Slice(at, q - at) else extra;
      var one := InterfaceAt(buf, q, None);
      if StopAt(buf, q) != Short && one.p != q {
        InterfaceNumbers(buf, q, None);
        BodyNumbers(buf, one.p, k - 1, extra');
        var rest := BodyAt(buf, one.p, k - 1, extra').interfaces;
        if rest != [] {
          NothingToSkip(buf, one.p);
          assert NumberOf(buf, rest[0][0]) == buf[one.p + 2];
        }
        Prepended(buf, one.alts, rest);
      }
    }
  }

  lemma NothingToSkip(buf: seq<byte>, p: nat)
    requires p <= |buf| && StopAt(buf, p) != More
    ensures SkipEnd(buf, p) == p
  {
  }

  lemma Prepended(buf: seq<byte>, alts: seq<Alt>, rest: seq<seq<Alt>>)
    requires alts != [] && ByNumber(buf, rest)
    requires forall j :: 0 <= j < |alts| ==> NumberOf(buf, alts[j]) == NumberOf(buf, alts[0])
    requires rest != [] ==> NumberOf(buf, alts[0]) != NumberOf(buf, rest[0][0])
    ensures ByNumber(buf, [alts] + rest)
  {
    hide NumberOf;
    var list := [alts] + rest;
    forall i | 0 <= i < |list|
      ensures list[i] != [] && (i > 0 ==> NumberOf(buf, list[i - 1][0]) != NumberOf(buf, list[i][0]))
      ensures forall j :: 0 <= j < |list[i]| ==> NumberOf(buf, list[i][j]) == NumberOf(buf, list[i][0])
    {
      if i > 0 {
        assert list[i] == rest[i - 1];
      }
    }
  }

  /** Where the slices of an interface end. */
  function EndOf(s: seq<Slice>): nat { if s == [] then 0 else s[|s| - 1].from + s[|s| - 1].len }

  lemma {:induction false} TilesEnd(s: seq<Slice>, from: nat, to: nat)
    requires Tiles(s, from, to) && s != []
    ensures EndOf(s) == to
    decreases |s|
  {
    if |s| > 1 {
      TilesEnd(s[1..], from + s[0].len, to);
    }
  }

  lemma {:induction false} BodyStops(buf: seq<byte>, at: nat, k: nat, extra: Slice, i: nat)
    requires at <= |buf| && BodyAt(buf, at, k, extra).Body? && i < |BodyAt(buf, at, k, extra).interfaces|
    ensures Finished(buf, BodyAt(buf, at, k, extra).interfaces[i])
    decreases k
  {
    hide InterfaceAt, StopAt, SkipEnd, Finished;
    var q := SkipEnd(buf, at);
    var extra' := if extra.len == 0 then Slice(at, q - at) else extra;
    var one := InterfaceAt(buf, q, None);
    if i > 0 {
      BodyStops(buf, one.p, k - 1, extra', i - 1);
    } else {
      InterfaceStops(buf, q);
    }
  }

  /** After the last setting no other with its number follows, or the extra descriptors run
      into a short one. */
  predicate Finished(buf: seq<byte>, alts: seq<Alt>) {
    var m := EndOf(AltsSlices(alts));
    && alts != [] && m <= |buf|
    && (StopAt(buf, SkipEnd(buf, m)) == Short || !Another(buf, m, NumberOf(buf, alts[0])))
  }

  lemma InterfaceStops(buf: seq<byte>, q: nat)
    requires q <= |buf| && InterfaceAt(buf, q, None).Interface? && InterfaceAt(buf, q, None).p != q
    ensures Finished(buf, InterfaceAt(buf, q, None).alts)
  {
    hide InterfaceAt, StopAt, SkipEnd, NumberOf, Another;
    InterfaceNumbers(buf, q, None);
    var r := InterfaceAt(buf, q, None);
    var m := InterfaceTile(buf, q, None);
    SlicesSome(r.alts);
    TilesEnd(AltsSlices(r.alts), q, m);
    if m == r.p {
      if StopAt(buf, m) == Short {
        SkipsNothingShort(buf, m);
      }
    } else {
      SkipUnique(buf, m, r.p);
    }
  }

  lemma SkipsNothingShort(buf: seq<byte>, p: nat)
    requires p <= |buf| && StopAt(buf, p) == Short
    ensures SkipEnd(buf, p) == p
  {
  }

  lemma SlicesSome(alts: seq<Alt>)
    requires alts != []
    ensures AltsSlices(alts) != []
  {
  }

  /** In the tree of any buffer, settings are grouped by interface number: all settings of
      an interface have the same, neighbouring interfaces have different ones, and an
      interface goes on as long as settings with its number follow, short of a descriptor
      that is cut off. */
  lemma SettingsByNumber(buf: seq<byte>)
    requires ConfigSpec(buf).Parsed?
    ensures var list := ConfigSpec(buf).config.interfaces;
            ByNumber(buf, list) && forall i :: 0 <= i < |list| ==> Finished(buf, list[i])
  {
    hide BodyAt, Finished, ByNumber;
    BodyNumbers(buf, buf[0], buf[4], Slice(buf[0], 0));
    forall i | 0 <= i < |ConfigSpec(buf).config.interfaces|
      ensures Finished(buf, ConfigSpec(buf).config.interfaces[i])
    {
      BodyStops(buf, buf[0], buf[4], Slice(buf[0], 0), i);
    }
  }

  // ---------- Settings without the endpoints they announce ----------

  /** The count says there are endpoints, and the array is a null pointer. */
  predicate Lacking(a: Alt) { a.numEndpoints > 0 && a.endpoints.None? }

  /** The descriptor of `a` announces endpoints, and only extra descriptors lie between it
      and a short descriptor at `end`. */
  predicate CutShort(buf: seq<byte>, a: Alt, end: nat) {
    && a.desc.len >= 9 && a.desc.from + a.desc.len <= |buf| && end <= |buf|
    && buf[a.desc.from + 4] > 0 && Skippable(buf, a.desc.from + a.desc.len, end) && StopAt(buf, end) == Short
  }

  lemma LackingAlt(buf: seq<byte>, at: nat, e: nat)
    requires at + 9 <= |buf| && (AltAt(buf, at).OneAlt? || AltAt(buf, at).CutAlt?)
    ensures var r := AltAt(buf, at);
            && (Lacking(r.a) ==> r.CutAlt? && CutShort(buf, r.a, r.p))
            && (CutShort(buf, r.a, e) ==> Lacking(r.a) && e == r.p)
  {
    hide SkipEnd, StopAt, Skippable, EndpointsAt;
    var r, begin := AltAt(buf, at), at + buf[at];
    SkipsExactly(buf, begin);
    if CutShort(buf, r.a, e) {
      SkipUnique(buf, begin, e);
    }
  }

  lemma {:induction false} LackingInterface(buf: seq<byte>, at: nat, first: Option<byte>, j: nat, e: nat)
    requires at <= |buf| && InterfaceAt(buf, at, first).Interface? && j < |InterfaceAt(buf, at, first).alts|
    ensures var r := InterfaceAt(buf, at, first);
            && (Lacking(r.alts[j]) ==> j == |r.alts| - 1 && CutShort(buf, r.alts[j], r.p))
            && (CutShort(buf, r.alts[j], e) ==> Lacking(r.alts[j]) && e == r.p)
    decreases |buf| - at
  {
    hide AltAt, CutShort, Lacking;
    var one := AltAt(buf, at);
    LackingAlt(buf, at, e);
    if one.OneAlt? {
      var number := if first.Some? then first.value else buf[at + 2];
      if Alternate(buf, one.p, number) && j > 0 {
        LackingInterface(buf, one.p, Some(number), j - 1, e);
      }
    }
  }

  /** Nothing follows an interface that ends before a short descriptor. */
  lemma ShortEndsBody(buf: seq<byte>, at: nat, k: nat, extra: Slice)
    requires at <= |buf| && StopAt(buf, at) == Short
    ensures BodyAt(buf, at, k, extra) == Body(extra, [], at)
  {
  }

  lemma {:induction false} LackingBody(buf: seq<byte>, at: nat, k: nat, extra: Slice, i: nat, j: nat, e: nat)
    requires at <= |buf| && BodyAt(buf, at, k, extra).Body?
    requires i < |BodyAt(buf, at, k, extra).interfaces| && j < |BodyAt(buf, at, k, extra).interfaces[i]|
    ensures var r := BodyAt(buf, at, k, extra);
            var a := r.interfaces[i][j];
            && (Lacking(a) ==> i == |r.interfaces| - 1 && j == |r.interfaces[i]| - 1 && CutShort(buf, a, r.p))
            && (CutShort(buf, a, e) ==> Lacking(a))
    decreases k
  {
    hide InterfaceAt, SkipEnd, StopAt, CutShort, Lacking;
    var q := SkipEnd(buf, at);
    var extra' := if extra.len == 0 then Slice(at, q - at) else extra;
    var one := InterfaceAt(buf, q, None);
    if i > 0 {
      LackingBody(buf, one.p, k - 1, extra', i - 1, j, e);
    } else {
      LackingInterface(buf, q, None, j, e);
      if Lacking(one.alts[j]) {
        assert StopAt(buf, one.p) == Short by { ShortAt(buf, one.alts[j], one.p); }
        ShortEndsBody(buf, one.p, k - 1, extra');
      }
    }
  }

  lemma ShortAt(buf: seq<byte>, a: Alt, end: nat)
    requires CutShort(buf, a, end)
    ensures end <= |buf| && StopAt(buf, end) == Short
  {
  }

  /** In the tree of any buffer at most one setting lacks the endpoints it announces: the
      last setting of the last interface, and that one exactly when only extra descriptors
      lie between its descriptor and a short one, where the left-over bytes begin. */
  lemma LackingIff(buf: seq<byte>, i: nat, j: nat)
    requires var r := ConfigSpec(buf); r.Parsed? && i < |r.config.interfaces| && j < |r.config.interfaces[i]|
    ensures var r := ConfigSpec(buf);
            var list := r.config.interfaces;
            Lacking(list[i][j]) <==>
            i == |list| - 1 && j == |list[i]| - 1 && CutShort(buf, list[i][j], |buf| - r.left)
  {
    hide BodyAt, CutShort, Lacking;
    LackingBody(buf, buf[0], buf[4], Slice(buf[0], 0), i, j, |buf| - ConfigSpec(buf).left);
  }

  /** Such a setting reaches the caller. */
  lemma NullEndpointsParsed()
    ensures var buf := [9, 2, 20, 0, 1, 1, 0, 128, 50, 9, 4, 0, 0, 2, 0, 0, 0, 0, 64, 36];
            ConfigSpec(buf) ==
              Parsed(Config(Slice(0, 9), Slice(9, 0), [[Alt(Slice(9, 9), Slice(18, 0), 2, None)]]), 2)
  {
    var buf := [9, 2, 20, 0, 1, 1, 0, 128, 50, 9, 4, 0, 0, 2, 0, 0, 0, 0, 64, 36];
    var alt := Alt(Slice(9, 9), Slice(18, 0), 2, None);
    assert StopAt(buf, 9) == Proper && SkipEnd(buf, 9) == 9;
    assert StopAt(buf, 18) == Short && SkipEnd(buf, 18) == 18;
    hide SkipEnd, EndpointsAt;
    assert AltAt(buf, 9) == CutAlt(alt, 18);
    assert InterfaceAt(buf, 9, None) == Interface([alt], 18);
    assert BodyAt(buf, 18, 0, Slice(9, 0)) == Body(Slice(9, 0), [], 18);
    assert BodyAt(buf, 9, 1, Slice(9, 0)) == Body(Slice(9, 0), [[alt]], 18);
  }
}
