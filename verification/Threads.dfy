/** ThreadState_t of zcm/blocking.cpp. */
module Threads {
  datatype ThreadState = Stopped | Running | Halting | Halted
}
