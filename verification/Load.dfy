/** The loader: it opens the transfer, checks the announced length and stores the stream in flash. */
module Load {
  import opened Bytes
  import opened Transfer
  import opened Ymodem

  /** The loader's window, as in builds without large packets; module WideWindow has it as a parameter. */
  const READ_SIZE := 1024

  /** `receive_file`: every piece read is written behind the one before; the last call sees EOT. */
  function ReceiveFile(r: Receiver, remaining: nat): (Receiver, bool)
    decreases remaining
  {
    if remaining == 0 then (Read(r, READ_SIZE).0, true)
    else
      var (r1, data) := Read(r, Min(remaining, READ_SIZE));
      if data == [] || remaining < |data| then (r1, false)
      else ReceiveFile(Note(r1, Stored(data)), remaining - |data|)
  }

  /** `loader_serial_ymodem`; `min` and `max` bound the file length, `erased` is the flash made ready (0: not
      checked). */
  function LoadSerial(r: Receiver, erased: nat, min: nat, max: nat): (Receiver, bool) {
    var (r1, code) := Open(r);
    if code != Succ then (Heard(r1, []), false)
    else if r1.fileLength <= min || r1.fileLength > max then (Heard(r1, []), false)
    else if erased != 0 && erased < r1.fileLength then (Heard(r1, []), false)
    else
      var (r2, ok) := ReceiveFile(r1, r1.fileLength);
      (Heard(r2, []), ok)
  }

  /** What the history says is in flash. */
  function StoredBytes(log: seq<Event>): seq<Byte>
    decreases |log|
  {
    if log == [] then []
    else
      var front, last := log[..|log| - 1], log[|log| - 1];
      if last.Stored? then StoredBytes(front) + last.data else StoredBytes(front)
  }

  function Tally(log: seq<Event>, e: Event): nat
    decreases |log|
  {
    if log == [] then 0
    else Tally(log[..|log| - 1], e) + if log[|log| - 1] == e then 1 else 0
  }
}
