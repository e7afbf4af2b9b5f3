# Dragonfly's function registry and Base64 serializer, in Dafny

This project models two small pieces at the centre of the Dragonfly Ruby
library.

**`Dragonfly::FunctionManager`** is the registry behind Dragonfly's processors,
encoders, generators and analysers. It keeps two things:

- a table from an operation name to the handlers added under it, oldest first;
- the list of extension objects registered with it.

`add` appends a handler under a name. `register` adds one handler for each
public method of an extension object. A configurable object's configuration
methods are not added. `call_last` tries a name's handlers newest first. A
handler may decline by throwing `:unable_to_handle`, and then the next older
handler is tried. An unknown name raises `NotDefined`. If every handler
declines, the call raises `UnableToHandle`. `inspect` lists the registered names
in sorted order.

**`Dragonfly::Serializer`** provides `b64_encode` and `b64_decode`, an unpadded
Base64 used to put data into URLs. `b64_encode` takes the output of Ruby's
`Base64.encode64` and deletes every newline and every `=`. `encode64` uses the
alphabet of section 4 of RFC 4648, pads to whole four-character quanta, and ends
a line every 60 characters. `b64_decode` adds `length % 4` `=` characters and
hands the text to `Base64.decode64`.

The model is split into four modules:

- `Options`: the optional value.
- `Text`: Ruby string order, sorted insertion, substring occurrence, the `[0..n]`
  slice, `join`, and `sub(/>$/, ...)`.
- `FunctionManager`: the registry.
- `Serializer`: the Base64 helpers.

The registry is an immutable value: an operation that changes it returns a new
registry. Ruby values (arguments, results and raised exceptions) are one type
parameter `V`. A handler is a function from an argument list to one of three
outcomes: a value, a decline, or a raised exception. An extension object is
described by four things:

- its public method names;
- a `bind` function standing for `obj.method(name)`;
- whether it is `Configurable`;
- its configuration method names.

The main results proved are:

- `call_last` answers with the newest handler that does not decline. Exactly the
  handlers added after that one are asked before it.
- `register` gives each of an object's methods exactly one handler and leaves
  every other name alone.
- `inspect` lists each registered name once, in sorted order. Any sorted listing
  of the same names is that listing.
- `b64_decode(b64_encode(b)) == b` for every byte string `b`.
- `b64_encode(b64_decode(s)) == s` for every canonical text `s`, which is every
  text `b64_encode` can produce.

## Model

| member | source | states |
|---|---|---|
| FunctionManager.New | lib/dragonfly/function_manager.rb:10-13 | a new registry has no handlers under any name and no objects |
| FunctionManager.Add | lib/dragonfly/function_manager.rb:15-18 | the handler is appended at the end of the name's list, and the list is created if the name was new; every other name's list, and the objects, are unchanged; every listed name keeps at least one handler |
| FunctionManager.Without | lib/dragonfly/function_manager.rb:56-58 | Ruby array difference: each name keeps its count of occurrences unless it is excluded, and then it has none |
| FunctionManager.MethodsToAdd | lib/dragonfly/function_manager.rb:54-62 | the methods to add are the public methods, with repeats kept, except that a configurable object loses the names in `Excluded` (its configuration methods and `configuration_methods`, lines 56-58) |
| FunctionManager.AddEach | lib/dragonfly/function_manager.rb:26-28 | adding each method in turn gives every name one copy of the bound method per occurrence among the names added; the names in the table become the old ones plus those added |
| FunctionManager.Register | lib/dragonfly/function_manager.rb:22-31 | a block given for an object without a `configure` method (`AnswersConfigure`: neither `Configurable` nor defining its own) is an error, and a block that raises passes its exception on; in both cases nothing is added or recorded; otherwise the (configured) object is appended to the objects and returned, and each name gains the object's bound method once per time it is to be added |
| FunctionManager.RegisterAddsOneHandlerPerMethod | lib/dragonfly/function_manager.rb:22-31 | when each public method is listed once, each method to add gets exactly one new handler, the bound method, and every other name's handlers are unchanged |
| FunctionManager.Reverse | lib/dragonfly/function_manager.rb:35 | `reverse` puts element `i` at position `n-1-i` |
| FunctionManager.FirstAnswer | lib/dragonfly/function_manager.rb:35-39 | the walk stops at the first handler that does not decline and returns what it did; every handler before it declined; the walk runs off the end only when all of them decline |
| FunctionManager.NewestAnswer | lib/dragonfly/function_manager.rb:35-39 | walking the reversed list stops at the newest handler that does not decline, and every newer handler declined |
| FunctionManager.CallLast | lib/dragonfly/function_manager.rb:33-46 | NotDefined exactly when the name is unknown, with no handler called; otherwise the handlers are asked newest first, each one asked except the last declined, and the last one's value or exception is the reply; UnableToHandle exactly when every handler declines, with the message built from the truncated argument renderings |
| FunctionManager.CallLastIsLatestAnswer | lib/dragonfly/function_manager.rb:33-39 | the reply is that of the latest-added handler that does not decline, and exactly the handlers added after it were asked as well |
| FunctionManager.NewerHandlerOverrides | lib/dragonfly/function_manager.rb:33-42 | of two handlers added under one name, the newer answers; the older answers only when the newer declines; if both decline the call is UnableToHandle after asking both |
| FunctionManager.Renderings | lib/dragonfly/function_manager.rb:42 | each argument is rendered as a prefix of its `inspect` text: all of it when it has at most 101 characters, and exactly its first 101 characters otherwise |
| FunctionManager.UnableMessageMentions | lib/dragonfly/function_manager.rb:41-42 | the UnableToHandle message (`UnableMessage`, the text of lines 41-42) contains the registry's text, the method name and every argument's rendering |
| FunctionManager.NotDefinedMessageMentions | lib/dragonfly/function_manager.rb:44 | the NotDefined message (`NotDefinedMessage`, the text of line 44) contains the method name and the registry's text |
| FunctionManager.DescribedMentions | lib/dragonfly/function_manager.rb:49 | when the registry's `to_s` text has a `>` that ends a line, the `inspect` text (`Described`: `to_s` with that `>` replaced by the joined names) contains every listed name |
| FunctionManager.Inspect | lib/dragonfly/function_manager.rb:48-50 | the listed names are strictly sorted, so there are no repeats, and they are exactly the registered names; the text lists them all where the closing `>` was, and is `to_s` unchanged when there is no such `>` |
| Text.Insert | lib/dragonfly/function_manager.rb:49 | inserting a new name into a strictly sorted list keeps it strictly sorted and adds exactly that name |
| Text.SortedListingUnique | lib/dragonfly/function_manager.rb:49 | two strictly sorted listings of the same names are equal, so the sorted listing of the names is unique |
| Text.LeTotal | lib/dragonfly/function_manager.rb:49 | Ruby's string order (`Text.Le`, the `String#<=>` behind `sort`: character by character, a proper prefix first) compares any two strings |
| Text.LeAntisymmetric | lib/dragonfly/function_manager.rb:49 | two strings ordered both ways are equal |
| Text.LeTransitive | lib/dragonfly/function_manager.rb:49 | Ruby's string order is transitive |
| Text.JoinSnoc | lib/dragonfly/function_manager.rb:42 | `Join` read left to right: joining one more piece gives the text joined so far, then the separator, then that piece, so the separator stands between each piece and the next |
| Text.JoinContainsParts | lib/dragonfly/function_manager.rb:42 | every piece of a `join` occurs in the joined text |
| Text.Prefix | lib/dragonfly/function_manager.rb:42 | `s[0..n-1]` is a prefix of `s` of at most `n` characters, and it is all of `s` when `s` is no longer than `n` |
| Text.SubClosing | lib/dragonfly/function_manager.rb:49 | `sub(/>$/, rep)` replaces the leftmost `>` that ends a line with `rep` and keeps the rest; the text is unchanged when there is no such `>` |
| Text.FirstClosing | lib/dragonfly/function_manager.rb:49 | the search finds the leftmost `>` that ends a line, or reports that there is none |
| Serializer.ValueOf | lib/dragonfly/serializer.rb:14 | Table 1 of RFC 4648 read backwards: each alphabet character maps to the value whose character it is |
| Serializer.EncodeUnpadded | lib/dragonfly/serializer.rb:9 | the unpadded encoding uses only alphabet characters, never leaves a lone final character, and has (4n+2)/3 characters for n bytes |
| Serializer.Encode | lib/dragonfly/serializer.rb:9 | the padded encoding is the unpadded characters followed by `=` up to a whole number of four-character quanta |
| Serializer.Wrap | lib/dragonfly/serializer.rb:9 | `encode64`'s line layout: empty text stays empty, and any other text ends with a newline |
| Serializer.WrapLength | lib/dragonfly/serializer.rb:9 | one newline is added per line of at most 60 characters |
| Serializer.Encode64 | lib/dragonfly/serializer.rb:9 | `encode64`'s output without its newlines is the padded encoding |
| Serializer.Delete | lib/dragonfly/serializer.rb:9 | `tr(chars, '')`: no deleted character remains, and the result is no longer than the input |
| Serializer.DeleteKeeps | lib/dragonfly/serializer.rb:9 | `tr(chars, '')` keeps every other character as often as it occurs |
| Serializer.DeleteUnwraps | lib/dragonfly/serializer.rb:9 | deleting newlines undoes breaking the text into 60-character lines |
| Serializer.StripEncode64 | lib/dragonfly/serializer.rb:9 | deleting newlines and `=` from `encode64`'s output leaves exactly the unpadded characters |
| Serializer.B64Encode | lib/dragonfly/serializer.rb:8-10 | the result has no `=` and no newline, only alphabet characters, (4n+2)/3 characters for n bytes, and never a lone final character |
| Serializer.Repad | lib/dragonfly/serializer.rb:13-14 | `length % 4` `=` characters are appended after the text; they make whole quanta exactly when the length is 0 or 2 modulo 4, and at 3 they are three where one would do |
| Serializer.DropPadsIgnoresPadding | lib/dragonfly/serializer.rb:14 | the padding `b64_decode` adds is removed again by the decoder, whatever its length |
| Serializer.Decode64 | lib/dragonfly/serializer.rb:14 | the lenient `decode64`: it accepts exactly text that, less its trailing `=`, is alphabet characters without a lone final character, and gives three bytes for every four characters |
| Serializer.B64Decode | lib/dragonfly/serializer.rb:12-15 | decoding succeeds exactly when the text, less its trailing `=`, is alphabet characters without a lone final character; the padding added is ignored, so the bytes are `DecodeChars` (the RFC 4648 decoder, inverse of `EncodeUnpadded`) of the text without its `=` |
| Serializer.DecodeEncodeUnpadded | lib/dragonfly/serializer.rb:8-15 | decoding the unpadded characters gives the bytes back |
| Serializer.RoundTrip | lib/dragonfly/serializer.rb:8-15 | `b64_decode(b64_encode(b)) == b` for every byte string |
| Serializer.EncodeIsCanonical | lib/dragonfly/serializer.rb:8-10 | everything `b64_encode` produces is canonical: alphabet characters, no lone final character, and zero spare bits in a final partial group |
| Serializer.EncodeDecodeChars | lib/dragonfly/serializer.rb:8-15 | on canonical text, encoding what was decoded gives the text back |
| Serializer.CanonicalRoundTrip | lib/dragonfly/serializer.rb:8-15 | every canonical text decodes, and `b64_encode(b64_decode(s)) == s` |

## Left out

- `include Loggable` and `use_same_log_as` (function_manager.rb lines 8 and 25) are left out. They are logging only and do not change which handlers are added or called.
- `register`'s `klass.new(*args)` is left out. `Register` takes the object already built, because construction is code outside the registry.
- Ruby reflection is not modelled. `public_methods(false)` becomes the object's listed method names, and `obj.method(meth)` becomes `bind`.
- `to_method_name` is applied before the model sees the names: configuration method names are taken as already converted.
- The `Configurable` module is not part of this model. `obj.configure(&block)` becomes a function the caller supplies, and `is_a?(Configurable)` becomes a flag. A second flag records an object that defines a `configure` of its own without being `Configurable`: `register` calls that method like any other `configure`, and its methods are added unfiltered, `configure` included.
- FunctionManager.Register: a block given with an object that has no `configure` method is modelled as the error `NoConfigureMethod`, and a block that raises as `ConfigureRaised` carrying its exception. Neither carries a registry, so the caller's registry stands unchanged. In Ruby the first raises `NoMethodError` from `obj.configure`, and the second propagates the block's exception.
- `add` with neither a callable nor a block appends `nil` in Ruby, and calling that name later fails. The model's `Add` always takes a handler, so this case is left out.
- What a handler does besides returning a value, declining or raising is left out: side effects, state, logging.
- A handler's outcome is a function of the arguments only.
- `to_s` (the object's identity text) and each argument's `inspect` are parameters, because they come from Ruby's object system.
- Renderings and Prefix count characters. Ruby's `[0..100]` also counts characters, so they agree; encodings are not modelled.
- FunctionManager.CallLast: every name is taken to be a symbol. Ruby's `add` stores `name` as given, while `call_last` looks up `meth.to_sym`, so a handler added under a String name is not found by `call_last` in Ruby. The model's names are plain strings, so it does not model this mismatch.
- FunctionManager.Inspect: names are taken to be symbols, as in `FunctionManager.CallLast`. A Ruby table holding both `:thumb` and `"thumb"` lists "thumb" twice after `to_s`. The model's table cannot hold both, so its strictly sorted listing does not cover that case.
- Text.SubClosing: the replacement is inserted literally. Ruby's `sub` with a String replacement expands `\0`, `\&`, `\\`, `` \` `` and `\'`. Operation names containing a backslash are not modelled.
- Text.Le compares characters by code point. Ruby compares strings by their bytes, which for UTF-8 text gives the same order.
- The `functions` and `objects` readers (line 20) hand out the mutable Ruby hash and array. Changes made through them from outside are not modelled.
- Thread safety is not modelled.
- `marshal_encode` and `marshal_decode` are left out. Ruby's `Marshal` format is not part of this model.
- Serializer.B64Decode: Ruby's `decode64` never fails. It skips characters outside the alphabet and ignores a lone final character. The model rejects both (it returns `None`), so it states less than Ruby's behaviour on malformed text. On everything `b64_encode` produces the two agree (`RoundTrip`, `CanonicalRoundTrip`).
- Serializer.CanonicalRoundTrip: the converse round trip is stated only for canonical text. On other text, Ruby's decoder silently drops spare bits, so re-encoding gives a different string.
- Serializer.Decode64: it drops any number of trailing `=` and rejects an `=` anywhere else. Ruby's `Base64` library is not part of this model, and its behaviour on text with an `=` before the end is not modelled. The text `b64_decode` passes on for anything `b64_encode` produces has `=` only at its end.
