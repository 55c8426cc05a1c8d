# CLI line classifier of the UART command interface

This project models the command-line interface in `main/uart_echo_example_main.c`.
Three tasks make up the interface:

- The **listener** (`CLI_cmd_listener_task`) reads bytes from the UART. It checks that they end in a line feed. It then searches them with `strstr` for the service names `RESET, READ, WRITE, CONTROL, ROUTINE`, in that order. The result is either a command, which goes on the command queue, or an error response, which goes on the response queue.
- The **executor** (`CLI_cmd_execute_task`) writes `READ` for a READ command and `RESET` for any other command.
- The **responder** (`CLI_cmd_response_task`) writes the name of the error the response carries.

The model is pure Dafny. A byte is a character below 256, so the name tables can be written as text. The bytes of one UART read are the input. A tagged `Outcome` (`Forward` or `Reject`) says which queue gets the message. The text an answer writes is a byte sequence.

- `ByteText`: the C string in a buffer, which is everything before its first NUL. Also `strstr`, modelled as a byte-by-byte search (`StrStr`) and proved equal to the substring predicate `Finds`.
- `CliTables`: the enums and name tables, and the one-to-one correspondence between enum values and table positions.
- `Listener`:
  - `Classify` is the pure classifier. The lemmas about it state each outcome.
  - `ListenOnce` copies one iteration of the listener's loop as written, and `ScanResetOptions` copies the RESET branch's option loops. `ListenOnce` is proved to send exactly what `Classify` specifies.
  - `ListenerTask` runs the endless loop over a sequence of reads. The receive buffer and the response struct carry over from one read to the next, and the proof shows that neither changes an answer.
- `Stages`: the executor's and the responder's output, and `Reply`, the text written back for one read.

The RESET branch has nested option loops that test and increment the service loop's counter `i`, but they index the option tables with `j` and `k`, which stay 0. `ScanResetOptions` reproduces this. Its contract shows that the loops always end and that only `HARD` and `NO_RESP` are ever looked for. That the branch always ends in `SERVICE_INCORRECT`, whatever options the line carries, follows from `ListenOnce` (which sends exactly what `Listen` specifies) together with `ResetAlwaysRejected`.

The code stops at classification, and the model does too:

- It rejects every terminated line that holds `RESET`; no RESET command is ever forwarded.
- It never looks up a parameter: every forwarded command carries `PARAM_NULL`, and its options are `NULL`.
- It never parses or validates a value.
- It writes only a bare service word (`READ` or `RESET`) or one of six bare error names; there is no status word and no parameter or value in the reply.

## Model

| member | source | states |
|---|---|---|
| `ByteText.CString` | main/uart_echo_example_main.c:323 | the string a buffer holds is a NUL-free prefix of it, followed by a NUL unless it is the whole buffer; this is what `data[len] = '\0'` sets up for `strstr` |
| `ByteText.CStringStopsAtNul` | main/uart_echo_example_main.c:323 | once the terminator is stored after the read bytes, the stale buffer contents behind it cannot change the string that `strstr` sees |
| `ByteText.CStringAt` | main/uart_echo_example_main.c:323 | the string a buffer holds is exactly the bytes before its first NUL |
| `ByteText.Strlen` | main/uart_echo_example_main.c:332 | the scan for the end of the string stops at the first NUL, or at the end of a buffer that has none |
| `ByteText.StrStr` | main/uart_echo_example_main.c:332 | the `strstr(data, name) != NULL` test is true exactly when the name occurs somewhere in the string before the first NUL |
| `CliTables.ServiceIndexRoundTrip` | main/uart_echo_example_main.c:44-59 | service enum values and service table positions correspond one to one |
| `CliTables.ErrorIndex` | main/uart_echo_example_main.c:256-272 | every error kind indexes inside the six-entry error name table |
| `CliTables.ErrorIndexRoundTrip` | main/uart_echo_example_main.c:256-272 | error kinds and error table positions correspond one to one |
| `CliTables.ErrorName` | main/uart_echo_example_main.c:265-272 | the text for an error is a non-empty entry of the error table |
| `CliTables.ErrorNamesDistinct` | main/uart_echo_example_main.c:265-272 | no two error names are spelled alike |
| `CliTables.IndexOfName` | main/uart_echo_example_main.c:265-272 | a table lookup finds the first entry equal to the text, and reports none only when no entry equals it |
| `CliTables.ErrorNameRoundTrip` | main/uart_echo_example_main.c:265-272 | reading an error back from its written name gives back the same error |
| `Listener.FirstMatch` | main/uart_echo_example_main.c:331-333 | the search picks the first table entry that occurs in the line, and every earlier entry is absent; it finds nothing only when no entry occurs |
| `Listener.Classify` | main/uart_echo_example_main.c:322-370 | a rejection always carries the NULL service, status NOK, NULL options and parameter, and one of COMMAND_INCORRECT or SERVICE_INCORRECT; a forwarded command is READ, WRITE, CONTROL or ROUTINE with NULL options and parameter |
| `Listener.Listen` | main/uart_echo_example_main.c:322 | a read produces nothing exactly when it is empty, and otherwise exactly one outcome |
| `Listener.UnterminatedRejected` | main/uart_echo_example_main.c:324-327 | a line is rejected with COMMAND_INCORRECT exactly when its last byte is not 0x0A |
| `Listener.NoServiceRejected` | main/uart_echo_example_main.c:366-369 | a terminated line that holds none of the five service names is rejected with SERVICE_INCORRECT |
| `Listener.TableOrderSelects` | main/uart_echo_example_main.c:331-363 | the first table entry present in the line decides the outcome: SERVICE_INCORRECT for RESET, and otherwise a command for that service with NULL options and parameter |
| `Listener.ForwardedServiceIsFirst` | main/uart_echo_example_main.c:331-333 | a forwarded command comes from a terminated line, and its service is the first table entry present in that line |
| `Listener.ResetAlwaysRejected` | main/uart_echo_example_main.c:335-350 | every terminated line holding "RESET" is rejected with SERVICE_INCORRECT, whatever else it holds |
| `Listener.ReadWinsOverLaterNames` | main/uart_echo_example_main.c:53-59 | a terminated line holding "READ" and not "RESET" is a READ command, even when "WRITE" appears before "READ" in the line |
| `Listener.ForwardedExactlyWhen` | main/uart_echo_example_main.c:331-374 | a read is forwarded exactly when it is a terminated line that holds READ, WRITE, CONTROL or ROUTINE and does not hold RESET |
| `Listener.ScanResetOptions` | main/uart_echo_example_main.c:335-346 | the option loops always end; opt1 ends as HARD exactly when "HARD" is present and otherwise NULL; opt2 ends as NO_RESP exactly when "HARD" and "NO_RESP" are both present and otherwise NULL |
| `Listener.ListenOnce` | main/uart_echo_example_main.c:313-378 | one iteration with its loops as written sends what `Listen` specifies; it stores the terminator at `data[len]` inside the 1024-byte buffer; it leaves every field of the response struct other than service and error untouched |
| `Listener.Queued` | main/uart_echo_example_main.c:372-377 | over a run of reads, the two queues together receive exactly one message per non-empty read; no queued command is RESET or NULL, and every queued response carries the NULL service |
| `Listener.ListenerTask` | main/uart_echo_example_main.c:300-380 | the endless loop, with its buffer and response struct carried from one read to the next, fills the queues exactly as `Queued` says, one message per non-empty read |
| `Stages.ExecutorText` | main/uart_echo_example_main.c:387-393 | the executor writes "READ" exactly for a READ command, and "RESET" for every other command |
| `Stages.ResponderText` | main/uart_echo_example_main.c:404-409 | for any service other than READ, the responder writes an entry of the error table that reads back as the response's own error; for READ it writes nothing |
| `Stages.Reply` | main/uart_echo_example_main.c:372-409 | the text written back for one read is empty exactly when the read is empty; otherwise it is an entry of the service table or of the error table |
| `Stages.RejectionAnsweredWithErrorName` | main/uart_echo_example_main.c:404-409 | every rejected line is answered with exactly its error's name, because a rejection always takes the responder's default branch |
| `Stages.ReplyToRead` | main/uart_echo_example_main.c:322-409 | what is written back for a read, stated on its bytes: nothing when it is empty; COMMAND_INCORRECT without the final line feed; SERVICE_INCORRECT when it holds RESET or no service name; READ when it holds READ; RESET when it holds only WRITE, CONTROL or ROUTINE |
| `Stages.WriteThenReadAnsweredRead` | main/uart_echo_example_main.c:53-59 | "WRITE READ\n" is answered READ: table order decides, not position in the line |
| `Stages.UnknownServiceAnswered` | main/uart_echo_example_main.c:366-369 | "FOO\n" is answered SERVICE_INCORRECT |
| `Stages.ResetHardAnswered` | main/uart_echo_example_main.c:335-350 | "RESET HARD\n" is answered SERVICE_INCORRECT |
| `Stages.ReadParameterAnswered` | main/uart_echo_example_main.c:387-390 | "READ ASI15_TRESHOLD\n" is answered with the bare word READ |
| `Stages.UnterminatedAnswered` | main/uart_echo_example_main.c:324-327 | "READ" without its line feed is answered COMMAND_INCORRECT |

## Left out

- UART setup and transfer (`uart_driver_install`, `uart_param_config`, `uart_set_pin`, `uart_read_bytes`, `uart_write_bytes`, lines 414-430): these are transport I/O. A read is an input byte sequence and a write is an output text.
- The 20 ms read timeout: the clock is outside the model. An empty read stands for a read that timed out with no data.
- FreeRTOS queues and tasks (`xQueueCreate`, `xQueueSend`, `xQueueReceive`, `xTaskCreate`, lines 432-441): these are concurrency primitives. The choice of queue is the tag of `Outcome`. The model does not cover blocking on a full one-slot queue, or how the executor's and responder's writes interleave on the shared UART.
- `app_main` (its `printf` and delay) and the `malloc` of the receive buffer: `ListenerTask` takes the buffer's initial contents as an arbitrary 1024-byte sequence.
- A negative return from `uart_read_bytes`: `ListenOnce` requires a read of 0 to `BUF_SIZE - 1` bytes, which is the limit passed to the driver.
- The parameter name table (lines 179-254) and the value fields of the command and response structs: the listener never reads or sets them.
- Needles that contain a NUL: `strstr` would stop a needle at its first NUL. Every name searched for here is a literal without one, so the model compares whole needles.
