/** The record sink: the timestamp added to every parsed record, the
    fixed-shape payload posted to the server, and how the server's answer
    is classified. */
module Sink {
  import opened Wrappers

  /** A JSON value as the parser hands it over; numbers are kept as their
      literal text, since the listener never computes with them. */
  datatype Value =
    | Null
    | Bool(b: bool)
    | Number(literal: string)
    | Text(s: string)
    | List(items: seq<Value>)
    | Object(fields: map<string, Value>)

  /** A parsed JSON object: field name to value. */
  type Record = map<string, Value>

  /** The field the listener adds to every parsed record. */
  const TimeKey: string := "Time"

  /** The six sensor readings the server accepts, in the payload's order. */
  const SensorKeys: seq<string> := ["co2", "humidity", "pm1_0", "pm2_5", "pm10_0", "temperature"]

  /** `rec.get(k)`: the value under `k`, or null when the key is missing. */
  function Get(rec: Record, k: string): Value
  {
    if k in rec then rec[k] else Null
  }

  /** The record with the local time written under `Time`, replacing any
      `Time` the device itself sent; every other field is kept as is. */
  function Stamp(rec: Record, time: string): (r: Record)
    ensures TimeKey in r && r[TimeKey] == Text(time)
    ensures r.Keys == rec.Keys + {TimeKey}
    ensures forall k :: k in rec && k != TimeKey ==> r[k] == rec[k]
  {
    rec[TimeKey := Text(time)]
  }

  /** The body posted to the server: exactly the six sensor fields, each
      taken from the record or null when the record lacks it. */
  function Payload(rec: Record): (p: map<string, Value>)
    ensures p.Keys == set k | k in SensorKeys
    ensures TimeKey !in p
    ensures forall k :: k in p && k in rec ==> p[k] == rec[k]
    ensures forall k :: k in p && k !in rec ==> p[k] == Null
  {
    map k | k in SensorKeys :: Get(rec, k)
  }

  /** The timestamp never reaches the server: stamping a record leaves its
      payload unchanged. */
  lemma PayloadIgnoresTime(rec: Record, time: string)
    ensures Payload(Stamp(rec, time)) == Payload(rec)
  {
  }

  /** How one POST ended, as `send_sensor_data` reports it. */
  datatype Delivery =
    | Delivered(status: int)   // 200 or 201
    | Rejected(status: int)    // any other HTTP status
    | Unreachable              // the request raised: timeout, refused, DNS, ...

  /** Classify the server's answer; `None` stands for a request that
      raised before any status came back. */
  function Classify(response: Option<int>): (d: Delivery)
    ensures d.Delivered? <==> response == Some(200) || response == Some(201)
    ensures d.Unreachable? <==> response.None?
    ensures d.Rejected? ==> response == Some(d.status)
    ensures d.Delivered? ==> response == Some(d.status)
  {
    match response
    case None => Unreachable
    case Some(status) =>
      if status == 200 || status == 201 then Delivered(status) else Rejected(status)
  }
}
