/** An abstract view of the sysfs tree the light HAL probes and writes.

    The prober only ever asks three questions of the filesystem: does a file
    open, does a directory exist, and which entries does a directory list.
    Writes are not performed on a real file: each one is recorded as an event
    naming the member stream, the file it is bound to and the value written. */
module Sysfs {

  datatype Option<+T> = None | Some(value: T)

  type Path = string

  /** `openable` holds the files that a stream can open; `dirs` maps each
      existing directory to its entries (full paths), in the order the
      directory iterator happens to yield them. */
  datatype FileSystem = FileSystem(openable: set<Path>, dirs: map<Path, seq<Path>>)

  /** `std::filesystem::exists` for the directories the prober asks about. */
  predicate Exists(fs: FileSystem, p: Path) {
    p in fs.dirs
  }

  /** `node.path().string() + "/" + leaf`. */
  function Join(dir: Path, leaf: string): Path {
    dir + "/" + leaf
  }

  /** A file stream: closed, or open on one file. */
  type Handle = Option<Path>

  /** `stream.open(p)`: a closed stream binds to `p` when `p` opens; a stream
      that is already open stays bound to the file it opened first. */
  function Open(fs: FileSystem, h: Handle, p: Path): Handle {
    if h.Some? then h else if p in fs.openable then Some(p) else None
  }

  const BACKLIGHT_DIR: Path := "/sys/class/backlight"
  const BACKLIGHT_NODE: string := "brightness"
  const ROTHLED_NODE: Path := "/sys/class/leds/roth-led/brightness"
  const LIGHTBAR_NODE: Path := "/sys/class/leds/led_lightbar/brightness"
  const LIGHTBAR_STATE: Path := "/sys/class/leds/led_lightbar/effects"
  const NVSHIELDLED_DIR: Path := "/sys/class/nvshieldled"
  const NVSHIELDLED_POWER_NODE: string := "brightness"
  const NVSHIELDLED_POWER_STATE: string := "state"
  const NVSHIELDLED_BUTTONS_NODE: string := "brightness2"
  const NVSHIELDLED_BUTTONS_STATE: string := "state2"

  /** The five member streams of `Light`. */
  datatype Node = BacklightNode | PowerLedNode | PowerLedStateNode | ButtonLedsNode | ButtonLedsStateNode

  /** What a write puts on a node: a number in decimal, one of the effect
      words, or a signed char, which a stream writes as that one raw byte
      rather than as digits. */
  datatype Value = Num(n: int) | Text(s: string) | Char(c: int)

  /** One `stream << value << std::endl` on member stream `node`, bound to `path`. */
  datatype Write = Write(node: Node, path: Path, value: Value)

  /** The values written to `node`, oldest first. */
  function WritesTo(log: seq<Write>, node: Node): seq<Value> {
    if log == [] then []
    else (if log[0].node == node then [log[0].value] else []) + WritesTo(log[1..], node)
  }

  /** A log of at most one write holds, for each node, that write's value
      when it went to the node and nothing otherwise. */
  lemma WritesToSingle(log: seq<Write>)
    requires |log| <= 1
    ensures forall node :: (WritesTo(log, node) ==
      if log != [] && log[0].node == node then [log[0].value] else [])
  {
    if log != [] {
      assert log[1..] == [];
    }
  }

  /** Filtering by node distributes over appending to the log. */
  lemma {:induction false} WritesToAppend(a: seq<Write>, b: seq<Write>, node: Node)
    ensures WritesTo(a + b, node) == WritesTo(a, node) + WritesTo(b, node)
  {
    if a == [] {
      assert a + b == b;
    } else {
      var head := if a[0].node == node then [a[0].value] else [];
      assert WritesTo(a + b, node) == head + WritesTo(a[1..] + b, node) by {
        assert (a + b)[0] == a[0] && (a + b)[1..] == a[1..] + b;
      }
      WritesToAppend(a[1..], b, node);
      var x, y := WritesTo(a[1..], node), WritesTo(b, node);
      assert head + (x + y) == (head + x) + y;
    }
  }
}
