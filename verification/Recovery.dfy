/** The recovery file: a map from device names to connection parameters, read and rewritten by every operation. */
module Recovery {
  import opened Bytes

  datatype Parameters = Parameters(address: string, port: int)

  /** An entry of the file; one without an address or a port, or with one of another type, is unusable. */
  datatype Entry = Usable(parameters: Parameters) | Unusable

  type Entries = map<string, Entry>

  /** What the file holds: nothing readable, something that is not JSON, or an object. */
  datatype File = Unreadable | Garbled | Contents(entries: Entries)

  /** An unreadable or garbled file counts as an empty map. */
  function Parse(file: File): Entries { if file.Contents? then file.entries else map[] }

  function Lookup(entries: Entries, name: string): Option<Entry> { if name in entries then Some(entries[name]) else None }

  datatype Got = NotFound | InvalidEntry | Got(parameters: Parameters)

  class DCSRecovery {
    var file: File

    constructor (file: File)
      ensures this.file == file
    {
      this.file := file;
    }

    ghost function Content(): Entries
      reads this
    {
      Parse(file)
    }

    /** The destructor: a clean shutdown leaves the empty object. */
    method Destroy()
      modifies this
      ensures file == Contents(map[])
    {
      file := Contents(map[]);
    }

    method Get(name: string) returns (r: Got)
      ensures match Lookup(Content(), name)
              case None => r == NotFound
              case Some(Unusable) => r == InvalidEntry
              case Some(Usable(p)) => r == Got.Got(p)
    {
      var json := Parse(file);
      if name !in json {
        return NotFound;
      }
      if json[name].Unusable? {
        return InvalidEntry;
      }
      return Got.Got(json[name].parameters);
    }

    method Enable(deviceName: string, address: string, port: int)
      modifies this
      ensures Content() == old(Content())[deviceName := Usable(Parameters(address, port))]
    {
      var j := Parse(file);
      if deviceName in j {
        j := j - {deviceName};
      }
      j := j[deviceName := Usable(Parameters(address, port))];
      file := Contents(j);
    }

    /** Rewrites the file only if the device has an entry. */
    method Disable(deviceName: string)
      modifies this
      ensures Content() == old(Content()) - {deviceName}
      ensures deviceName !in old(Content()) ==> file == old(file)
    {
      var j := Parse(file);
      if deviceName in j {
        file := Contents(j - {deviceName});
      }
    }
  }
}
