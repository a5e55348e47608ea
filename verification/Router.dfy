/** The Ctrl-B keyboard router as a byte transducer. */
module Router {
  import opened Basics

  const COMMAND_PREFIX: byte := 2

  datatype MuxCommand =
    | SplitHorizontal
    | SplitVertical
    | FocusNext
    | CloseFocused
    | Detach
    | EnterCopyMode
    | Quit

  datatype InputAction = Pending | Forward(bytes: Bytes) | Command(command: MuxCommand)

  /** The key that selects a command after the prefix. */
  function Key(command: MuxCommand): byte {
    match command
    case SplitHorizontal => '%' as int
    case SplitVertical => '\"' as int
    case FocusNext => 'o' as int
    case CloseFocused => 'x' as int
    case Detach => 'd' as int
    case EnterCopyMode => '[' as int
    case Quit => 'q' as int
  }

  function CommandFor(key: byte): Option<MuxCommand> {
    if key == '%' as int then Some(SplitHorizontal)
    else if key == '\"' as int then Some(SplitVertical)
    else if key == 'o' as int then Some(FocusNext)
    else if key == 'x' as int then Some(CloseFocused)
    else if key == 'd' as int then Some(Detach)
    else if key == '[' as int then Some(EnterCopyMode)
    else if key == 'q' as int then Some(Quit)
    else None
  }

  /** One byte: whether the prefix is pending afterwards, and the action. */
  function Routed(pending: bool, b: byte): (bool, InputAction) {
    if !pending then
      if b == COMMAND_PREFIX then (true, Pending) else (false, Forward([b]))
    else
      match CommandFor(b)
      case Some(command) => (false, Command(command))
      case None =>
        if b == COMMAND_PREFIX then (false, Forward([COMMAND_PREFIX])) else (false, Forward([COMMAND_PREFIX, b]))
  }

  /** A stream of bytes: the state at the end and the actions in order. */
  function RoutedAll(pending: bool, input: Bytes): (r: (bool, seq<InputAction>))
    ensures |r.1| == |input|
    decreases |input|
  {
    if input == [] then (pending, [])
    else
      var (next, action) := Routed(pending, input[0]);
      var (last, actions) := RoutedAll(next, input[1..]);
      (last, [action] + actions)
  }

  /** The bytes that reach the focused pane. */
  function Forwarded(actions: seq<InputAction>): Bytes {
    if actions == [] then []
    else (if actions[0].Forward? then actions[0].bytes else []) + Forwarded(actions[1..])
  }

  function Count(actions: seq<InputAction>, one: InputAction -> bool): nat {
    if actions == [] then 0 else (if one(actions[0]) then 1 else 0) + Count(actions[1..], one)
  }

  /** A command. */
  predicate IsCommand(action: InputAction) {
    action.Command?
  }

  /** A doubled prefix, sent on as one. */
  predicate IsLiteralPrefix(action: InputAction) {
    action == Forward([COMMAND_PREFIX])
  }

  /** The keystrokes an action consumed. */
  function Keys(action: InputAction): Bytes {
    match action
    case Pending => []
    case Forward(bytes) => if IsLiteralPrefix(action) then [COMMAND_PREFIX, COMMAND_PREFIX] else bytes
    case Command(command) => [COMMAND_PREFIX, Key(command)]
  }

  function AllKeys(actions: seq<InputAction>): Bytes {
    if actions == [] then [] else Keys(actions[0]) + AllKeys(actions[1..])
  }

  function Held(pending: bool): Bytes {
    if pending then [COMMAND_PREFIX] else []
  }

  /** Commands and their keys correspond one to one. */
  lemma KeysAreCommands(key: byte, command: MuxCommand)
    ensures CommandFor(key) == Some(command) <==> key == Key(command)
  {
  }

  lemma Rechain(held: Bytes, first: Bytes, rest: Bytes, keys: Bytes, next: Bytes, more: Bytes, last: Bytes)
    requires held + first == keys + next && next + rest == more + last
    ensures held + (first + rest) == (keys + more) + last
  {
    assert held + (first + rest) == (held + first) + rest == keys + (next + rest);
  }

  /** Routing loses nothing: the actions and the held prefix spell the input out again. */
  lemma {:induction false} RoutingIsLossless(pending: bool, input: Bytes)
    ensures Held(pending) + input == AllKeys(RoutedAll(pending, input).1) + Held(RoutedAll(pending, input).0)
    decreases |input|
  {
    if input == [] {
      assert Held(pending) + input == [] + Held(pending);
    } else {
      var (next, action) := Routed(pending, input[0]);
      var (last, actions) := RoutedAll(next, input[1..]);
      RoutingIsLossless(next, input[1..]);
      assert ([action] + actions)[1..] == actions && [input[0]] + input[1..] == input;
      assert Held(pending) + [input[0]] == Keys(action) + Held(next);
      Rechain(Held(pending), [input[0]], input[1..], Keys(action), Held(next), AllKeys(actions), Held(last));
    }
  }

  /** Different keystrokes are never routed alike. */
  lemma RoutingIsInjective(pending: bool, a: Bytes, b: Bytes)
    requires RoutedAll(pending, a) == RoutedAll(pending, b)
    ensures a == b
  {
    RoutingIsLossless(pending, a);
    RoutingIsLossless(pending, b);
    assert a == (Held(pending) + a)[|Held(pending)|..];
    assert b == (Held(pending) + b)[|Held(pending)|..];
  }

  lemma ByteConserved(pending: bool, b: byte)
    ensures var (next, action) := Routed(pending, b);
            |Held(pending)| + 1 ==
            (if action.Forward? then |action.bytes| else 0) + (if IsCommand(action) then 2 else 0)
            + (if IsLiteralPrefix(action) then 1 else 0) + |Held(next)|
  {
  }

  lemma TalliesCons(action: InputAction, rest: seq<InputAction>)
    ensures var all := [action] + rest;
            && |Forwarded(all)| == (if action.Forward? then |action.bytes| else 0) + |Forwarded(rest)|
            && Count(all, IsCommand) == (if IsCommand(action) then 1 else 0) + Count(rest, IsCommand)
            && Count(all, IsLiteralPrefix) ==
               (if IsLiteralPrefix(action) then 1 else 0) + Count(rest, IsLiteralPrefix)
  {
    assert ([action] + rest)[1..] == rest;
  }

  /** What happens to every byte: forwarded, part of a command, half of a doubled prefix, or still held. */
  lemma {:induction false} RoutingConservesBytes(pending: bool, input: Bytes)
    ensures var (last, actions) := RoutedAll(pending, input);
            |Held(pending)| + |input| ==
            |Forwarded(actions)| + 2 * Count(actions, IsCommand) + Count(actions, IsLiteralPrefix) + |Held(last)|
    decreases |input|
  {
    if input != [] {
      var (next, action) := Routed(pending, input[0]);
      ByteConserved(pending, input[0]);
      RoutingConservesBytes(next, input[1..]);
      TalliesCons(action, RoutedAll(next, input[1..]).1);
    }
  }

  /** It does not matter how the input is cut into batches. */
  lemma {:induction false} RoutingComposes(pending: bool, a: Bytes, b: Bytes)
    ensures var (middle, first) := RoutedAll(pending, a);
            var (last, second) := RoutedAll(middle, b);
            RoutedAll(pending, a + b) == (last, first + second)
    decreases |a|
  {
    if a == [] {
      assert a + b == b;
      assert [] + RoutedAll(pending, b).1 == RoutedAll(pending, b).1;
    } else {
      var (next, action) := Routed(pending, a[0]);
      RoutingComposes(next, a[1..], b);
      assert (a + b)[1..] == a[1..] + b;
      var rest := RoutedAll(next, a[1..]);
      var second := RoutedAll(rest.0, b).1;
      assert ([action] + rest.1) + second == [action] + (rest.1 + second);
    }
  }

  /** Every prefix byte doubled. */
  function Escaped(input: Bytes): Bytes {
    if input == [] then []
    else (if input[0] == COMMAND_PREFIX then [COMMAND_PREFIX, COMMAND_PREFIX] else [input[0]]) + Escaped(input[1..])
  }

  /** Escaping makes any byte string reach the pane as it is, with no command and nothing held back. */
  lemma {:induction false} EscapedIsForwarded(input: Bytes)
    ensures var (last, actions) := RoutedAll(false, Escaped(input));
            !last && Forwarded(actions) == input && Count(actions, IsCommand) == 0
  {
    if input != [] {
      var rest := Escaped(input[1..]);
      EscapedIsForwarded(input[1..]);
      var (last, actions) := RoutedAll(false, rest);
      if input[0] == COMMAND_PREFIX {
        var s := [COMMAND_PREFIX] + rest;
        assert Escaped(input) == [COMMAND_PREFIX] + s && s[1..] == rest && Escaped(input)[1..] == s;
        assert RoutedAll(true, s).1 == [Forward([COMMAND_PREFIX])] + actions;
        assert RoutedAll(false, Escaped(input)).1 == [Pending] + ([Forward([COMMAND_PREFIX])] + actions);
        assert ([Forward([COMMAND_PREFIX])] + actions)[1..] == actions;
      } else {
        assert Escaped(input)[1..] == rest;
        assert RoutedAll(false, Escaped(input)).1[1..] == actions;
      }
      assert [input[0]] + input[1..] == input;
    }
  }

  class InputRouter {
    var prefixPending: bool

    constructor ()
      ensures !prefixPending
    {
      prefixPending := false;
    }

    method Route(b: byte) returns (action: InputAction)
      modifies this
      ensures (prefixPending, action) == Routed(old(prefixPending), b)
    {
      if !prefixPending {
        if b == COMMAND_PREFIX {
          prefixPending := true;
          return Pending;
        }
        return Forward([b]);
      }
      prefixPending := false;
      var command := CommandFor(b);
      if command.Some? {
        action := Command(command.value);
      } else if b == COMMAND_PREFIX {
        action := Forward([COMMAND_PREFIX]);
      } else {
        action := Forward([COMMAND_PREFIX, b]);
      }
    }

    /** Flushes a pending prefix when the input closes. */
    method Finish() returns (flushed: Option<Bytes>)
      modifies this
      ensures !prefixPending
      ensures flushed == if old(prefixPending) then Some(Held(true)) else None
    {
      if prefixPending {
        prefixPending := false;
        return Some([COMMAND_PREFIX]);
      }
      flushed := None;
    }
  }
}
